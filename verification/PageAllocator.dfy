/** `malloc_pages` and `free_pages` of src/ext/OpenBSD_malloc_Linux.c: the page directory
    and the free list, and what keeps them in step. */
module PageAllocator {
  import opened PageDirectory
  import opened FreeList

  /** The blocks that are handed out: a block of n pages at s is in `live` as s -> n, and
      every page of it, with its guard page, is in `owner` under s. */
  datatype Blocks = Blocks(live: map<nat, nat>, owner: map<nat, nat>)

  /** The tag of index i of the block of n pages at s.  A page of chunks is a block of one
      page, whose first slot points at its `struct pginfo`. */
  ghost predicate BlockTag(tag: Tag, s: nat, n: nat, i: nat) {
    if i == s then tag == First || (tag.Info? && n == 1)
    else tag == RunTag(s, n, i)
  }

  /** Page i belongs to block `b.owner[i]`. */
  ghost predicate Owned(b: Blocks, g: nat, i: nat) {
    i in b.owner && var s := b.owner[i]; s in b.live && s <= i < s + b.live[s] + g
  }

  /** All pages of block s are its own: blocks do not overlap. */
  ghost predicate Owns(b: Blocks, g: nat, s: nat) {
    && s in b.live && SHIFT <= s && 0 < b.live[s]
    && (forall i {:trigger b.owner[i]} {:trigger i in b.owner} :: s <= i < s + b.live[s] + g ==> i in b.owner && b.owner[i] == s)
  }

  ghost predicate WellOwned(b: Blocks, g: nat) {
    && (forall i {:trigger Owned(b, g, i)} {:trigger b.owner[i]} :: i in b.owner ==> Owned(b, g, i))
    && (forall s {:trigger Owns(b, g, s)} {:trigger b.live[s]} :: s in b.live ==> Owns(b, g, s))
  }

  /** What the directory says about each page agrees with the free pages and the blocks. */
  ghost predicate TagsAgree(tags: map<nat, Tag>, free: set<nat>, b: Blocks) {
    && tags.Keys == free + b.owner.Keys
    && (forall i {:trigger TagOf(tags, i)} :: i in free ==> TagOf(tags, i) == Free)
    && (forall i {:trigger TagOf(tags, i)} :: i in b.owner && b.owner[i] in b.live ==> BlockTag(TagOf(tags, i), b.owner[i], b.live[b.owner[i]], i))
  }

  /** The owned pages are the free pages and the pages of the blocks. */
  ghost predicate Partition(owned: set<nat>, free: set<nat>, b: Blocks) {
    && owned == Range(0, SHIFT) + free + b.owner.Keys
    && free !! b.owner.Keys && free !! Range(0, SHIFT) && b.owner.Keys !! Range(0, SHIFT)
  }

  ghost function BlockOf(i: nat, s: nat): nat { s }

  ghost function WithBlock(b: Blocks, s: nat, n: nat, g: nat): Blocks {
    Blocks(b.live[s := n], b.owner + map i | i in Range(s, s + n + g) :: BlockOf(i, s))
  }

  ghost function WithoutBlock(b: Blocks, s: nat, n: nat, g: nat): Blocks {
    Blocks(b.live - {s}, b.owner - Range(s, s + n + g))
  }

  lemma BlockMadeOwned(b: Blocks, s: nat, n: nat, g: nat)
    requires WellOwned(b, g) && b.owner.Keys !! Range(s, s + n + g) && 0 < n && SHIFT <= s
    ensures WellOwned(WithBlock(b, s, n, g), g) && s !in b.live
    ensures WithBlock(b, s, n, g).owner.Keys == b.owner.Keys + Range(s, s + n + g)
  {
    var b' := WithBlock(b, s, n, g);
    assert s in Range(s, s + n + g);
    assert s in b.live ==> Owns(b, g, s);
    forall i | i in b'.owner
      ensures Owned(b', g, i)
    {
      if i !in Range(s, s + n + g) {
        assert Owned(b, g, i);
      }
    }
    forall t | t in b'.live
      ensures Owns(b', g, t)
    {
      if t != s {
        assert Owns(b, g, t);
      }
    }
  }

  /** Two blocks have no page in common. */
  lemma BlocksDisjoint(b: Blocks, g: nat, s: nat, t: nat)
    requires WellOwned(b, g) && s in b.live && t in b.live && s != t
    ensures Range(s, s + b.live[s] + g) !! Range(t, t + b.live[t] + g)
  {
    assert Owns(b, g, s) && Owns(b, g, t);
    hide WellOwned;
    var r := Range(s, s + b.live[s] + g);
    forall i | i in r
      ensures i !in Range(t, t + b.live[t] + g)
    {
      assert b.owner[i] == s;
    }
  }

  lemma BlockPages(b: Blocks, g: nat, s: nat)
    requires WellOwned(b, g) && s in b.live
    ensures Range(s, s + b.live[s] + g) <= b.owner.Keys && SHIFT <= s && 0 < b.live[s]
    ensures forall i {:trigger b.owner[i]} :: i in b.owner && b.owner[i] != s ==> i !in Range(s, s + b.live[s] + g)
  {
    assert Owns(b, g, s);
    hide WellOwned;
    forall i | i in b.owner && b.owner[i] != s
      ensures i !in Range(s, s + b.live[s] + g)
    {
    }
  }

  lemma BlockFreedOwned(b: Blocks, s: nat, g: nat)
    requires WellOwned(b, g) && s in b.live
    ensures WellOwned(WithoutBlock(b, s, b.live[s], g), g)
  {
    var b' := WithoutBlock(b, s, b.live[s], g);
    assert Owns(b, g, s);
    forall i | i in b'.owner
      ensures Owned(b', g, i)
    {
      assert Owned(b, g, i);
    }
    forall t | t in b'.live
      ensures Owns(b', g, t)
    {
      OthersOwn(b, s, t, g);
    }
  }

  lemma OthersOwn(b: Blocks, s: nat, t: nat, g: nat)
    requires WellOwned(b, g) && s in b.live && t in b.live && s != t
    ensures Owns(WithoutBlock(b, s, b.live[s], g), g, t)
  {
    assert Owns(b, g, t);
    BlocksDisjoint(b, g, s, t);
    hide WellOwned;
    assert forall i {:trigger i in b.owner} :: t <= i < t + b.live[t] + g ==> i in Range(t, t + b.live[t] + g);
  }

  lemma BlockMadeTags(tags: map<nat, Tag>, free: set<nat>, free': set<nat>, b: Blocks, s: nat, n: nat, g: nat)
    requires TagsAgree(tags, free, b) && WellOwned(b, g) && s !in b.live && free' == free - Range(s, s + n + g)
    ensures TagsAgree(WithRun(tags, s, n, s + n + g), free', WithBlock(b, s, n, g))
  {
    var r, tags', b' := Range(s, s + n + g), WithRun(tags, s, n, s + n + g), WithBlock(b, s, n, g);
    assert tags'.Keys == free' + b'.owner.Keys;
    forall i | i in b'.owner && b'.owner[i] in b'.live
      ensures BlockTag(TagOf(tags', i), b'.owner[i], b'.live[b'.owner[i]], i)
    {
      if i !in r {
        assert Owned(b, g, i) && TagOf(tags', i) == TagOf(tags, i);
      }
    }
    forall i | i in free'
      ensures TagOf(tags', i) == Free
    {
      assert TagOf(tags', i) == TagOf(tags, i);
    }
  }

  lemma BlockFreedTags(tags: map<nat, Tag>, free: set<nat>, b: Blocks, s: nat, g: nat)
    requires TagsAgree(tags, free, b) && WellOwned(b, g) && s in b.live
    ensures var m := b.live[s] + g;
            TagsAgree(WithFree(tags, s, s + m), free + Range(s, s + m), WithoutBlock(b, s, b.live[s], g))
  {
    hide WellOwned, Range, WithFree, WithoutBlock, TagsAgree, TagOf;
    var m := b.live[s] + g;
    var r, tags', b' := Range(s, s + m), WithFree(tags, s, s + m), WithoutBlock(b, s, b.live[s], g);
    BlockPages(b, g, s);
    TagsWithFree(tags, s, s + m);
    OthersLeft(b, s, b.live[s], g);
    KeysTagged(tags, free, b);
    MoveOver(tags.Keys, free, b.owner.Keys, r);
    OthersTagged(tags, tags', free, b, b', r);
  }

  lemma KeysTagged(tags: map<nat, Tag>, free: set<nat>, b: Blocks)
    requires TagsAgree(tags, free, b)
    ensures tags.Keys == free + b.owner.Keys
  {
  }

  lemma OthersLeft(b: Blocks, s: nat, n: nat, g: nat)
    ensures var b' := WithoutBlock(b, s, n, g); var r := Range(s, s + n + g);
            && b'.owner.Keys == b.owner.Keys - r
            && (forall i {:trigger b'.owner[i]} :: i in b'.owner ==> i !in r && i in b.owner && b.owner[i] == b'.owner[i])
            && (forall t {:trigger b'.live[t]} :: t in b'.live ==> t in b.live && b.live[t] == b'.live[t])
  {
    hide Range;
  }

  lemma MoveOver<T>(all: set<T>, s: set<T>, t: set<T>, r: set<T>)
    requires all == s + t && r <= t
    ensures all + r == (s + r) + (t - r)
  {
  }

  /** The tags of the other blocks, and of the free pages, are as they were. */
  lemma OthersTagged(tags: map<nat, Tag>, tags': map<nat, Tag>, free: set<nat>, b: Blocks, b': Blocks, r: set<nat>)
    requires TagsAgree(tags, free, b) && tags'.Keys == (free + r) + b'.owner.Keys
    requires forall i {:trigger TagOf(tags', i)} :: TagOf(tags', i) == if i in r then Free else TagOf(tags, i)
    requires forall i {:trigger b'.owner[i]} :: i in b'.owner ==> i !in r && i in b.owner && b.owner[i] == b'.owner[i]
    requires forall t {:trigger b'.live[t]} :: t in b'.live ==> t in b.live && b.live[t] == b'.live[t]
    ensures TagsAgree(tags', free + r, b')
  {
    hide BlockTag, TagOf;
  }

  lemma TagsWithFree(tags: map<nat, Tag>, lo: nat, hi: nat)
    ensures WithFree(tags, lo, hi).Keys == tags.Keys + Range(lo, hi)
    ensures forall i {:trigger TagOf(WithFree(tags, lo, hi), i)} :: TagOf(WithFree(tags, lo, hi), i) == if i in Range(lo, hi) then Free else TagOf(tags, i)
  {
    hide Range;
  }

  /** Pages that go back to the system. */
  lemma UnmappedTags(tags: map<nat, Tag>, free: set<nat>, b: Blocks, lo: nat, hi: nat)
    requires TagsAgree(tags, free, b) && Range(lo, hi) <= free && free !! b.owner.Keys
    ensures TagsAgree(Untagged(tags, lo, hi), free - Range(lo, hi), b)
  {
    var tags', r := Untagged(tags, lo, hi), Range(lo, hi);
    assert tags'.Keys == free - r + b.owner.Keys;
    forall i | i in b.owner && b.owner[i] in b.live
      ensures BlockTag(TagOf(tags', i), b.owner[i], b.live[b.owner[i]], i)
    {
      assert TagOf(tags', i) == TagOf(tags, i);
    }
    forall i | i in free - r
      ensures TagOf(tags', i) == Free
    {
      assert TagOf(tags', i) == TagOf(tags, i);
    }
  }

  /** The run of FIRST and FOLLOW that starts a block of pages has exactly its length: the
      count of `free_pages` and `irealloc` recovers what `malloc_pages` handed out. */
  lemma RunIsBlock(tags: map<nat, Tag>, free: set<nat>, b: Blocks, g: nat, s: nat)
    requires TagsAgree(tags, free, b) && WellOwned(b, g) && free !! b.owner.Keys && s in b.live && TagOf(tags, s) == First
    ensures RunAt(tags, s, b.live[s])
  {
    var n := b.live[s];
    assert Owns(b, g, s);
    NotFollow(tags, free, b, g, s);
    hide WellOwned;
    forall i | s < i < s + n
      ensures TagOf(tags, i) == Follow
    {
      assert b.owner[i] == s;
    }
  }

  /** The page after a block does not look like a part of it. */
  lemma NotFollow(tags: map<nat, Tag>, free: set<nat>, b: Blocks, g: nat, s: nat)
    requires TagsAgree(tags, free, b) && WellOwned(b, g) && free !! b.owner.Keys && s in b.live
    ensures TagOf(tags, s + b.live[s]) != Follow
  {
    var e := s + b.live[s];
    assert Owns(b, g, s);
    if e in b.owner {
      var t := b.owner[e];
      assert Owned(b, g, e) && Owns(b, g, t);
      hide WellOwned;
      assert t < e ==> b.owner[e - 1] == t;
      assert b.owner[e - 1] == s;
    }
  }

  // ----- the allocator

  lemma PartitionMade(owned: set<nat>, free: set<nat>, b: Blocks, s: nat, n: nat, g: nat)
    requires Partition(owned, free, b) && SHIFT <= s && b.owner.Keys !! Range(s, s + n + g)
    requires WithBlock(b, s, n, g).owner.Keys == b.owner.Keys + Range(s, s + n + g)
    ensures Range(s, s + n + g) <= free ==> Partition(owned, free - Range(s, s + n + g), WithBlock(b, s, n, g))
    ensures Range(s, s + n + g) !! owned ==> Partition(owned + Range(s, s + n + g), free, WithBlock(b, s, n, g))
  {
  }

  lemma PartitionFreed(owned: set<nat>, free: set<nat>, b: Blocks, s: nat, n: nat, g: nat)
    requires Partition(owned, free, b) && Range(s, s + n + g) <= b.owner.Keys
    ensures Partition(owned, free + Range(s, s + n + g), WithoutBlock(b, s, n, g)) && Range(s, s + n + g) !! free
  {
    assert WithoutBlock(b, s, n, g).owner.Keys == b.owner.Keys - Range(s, s + n + g);
  }

  lemma PartitionUnmapped(owned: set<nat>, free: set<nat>, b: Blocks, lo: nat, hi: nat)
    requires Partition(owned, free, b) && Range(lo, hi) <= free
    ensures Partition(Without(owned, lo, hi), free - Range(lo, hi), b)
  {
  }

  lemma SubRange(lo: nat, mid: nat, hi: nat)
    ensures mid <= hi ==> Range(lo, mid) <= Range(lo, hi)
  {
  }

  lemma NotABucket(owned: set<nat>, free: set<nat>, b: Blocks, p: nat, m: nat)
    requires Partition(owned, free, b) && Range(p, p + m) <= free && 0 < m
    ensures SHIFT <= p
  {
    assert p in Range(p, p + m) && p !in Range(0, SHIFT);
  }

  lemma NothingMade(g: nat)
    ensures var b := Blocks(map[], map[]);
            WellOwned(b, g) && TagsAgree(map[], {}, b) && Partition(Range(0, SHIFT), {}, b) && Counted(b, g, 0, 0)
  {
    hide Range;
  }

  /** The counters of pages in use and of guard pages, for these blocks. */
  ghost predicate Counted(b: Blocks, g: nat, used: nat, guarded: nat) {
    used + guarded == |b.owner.Keys| && guarded == if g == 0 then 0 else |b.live|
  }

  lemma CountMade(b: Blocks, s: nat, n: nat, g: nat, used: nat, guarded: nat)
    requires Counted(b, g, used, guarded) && s !in b.live && g <= 1
    requires b.owner.Keys !! Range(s, s + n + g) && WithBlock(b, s, n, g).owner.Keys == b.owner.Keys + Range(s, s + n + g)
    ensures Counted(WithBlock(b, s, n, g), g, used + n, guarded + g)
  {
    var b' := WithBlock(b, s, n, g);
    LiveMade(b, s, n, g);
    hide Range, WithBlock;
    OneMore(b.live, s, n);
    OwnersAdded(b.owner.Keys, b'.owner.Keys, s, n + g);
  }

  lemma OwnersAdded(keys: set<nat>, keys': set<nat>, s: nat, m: nat)
    requires keys !! Range(s, s + m) && keys' == keys + Range(s, s + m)
    ensures |keys'| == |keys| + m
  {
    hide Range;
    RangeSize(s, s + m);
    Together(keys, Range(s, s + m));
  }

  lemma LiveMade(b: Blocks, s: nat, n: nat, g: nat)
    ensures WithBlock(b, s, n, g).live == b.live[s := n]
  {
    hide Range;
  }

  lemma Together<T>(s: set<T>, t: set<T>)
    requires s !! t
    ensures |s + t| == |s| + |t|
  {
  }

  lemma OneMore<K, V>(m: map<K, V>, k: K, v: V)
    requires k !in m
    ensures |m[k := v]| == |m| + 1
  {
    assert m[k := v].Keys == m.Keys + {k};
  }

  lemma SizesFreed(b: Blocks, s: nat, g: nat)
    requires WellOwned(b, g) && s in b.live
    ensures var b' := WithoutBlock(b, s, b.live[s], g);
            |b'.owner.Keys| == |b.owner.Keys| - (b.live[s] + g) && |b'.live| == |b.live| - 1
  {
    hide WellOwned, WithoutBlock;
    OwnerFreed(b, s, g);
    LiveFreed(b, s, g);
  }

  lemma OwnerFreed(b: Blocks, s: nat, g: nat)
    requires WellOwned(b, g) && s in b.live
    ensures |WithoutBlock(b, s, b.live[s], g).owner.Keys| == |b.owner.Keys| - (b.live[s] + g)
  {
    hide WellOwned, Range;
    var r := Range(s, s + b.live[s] + g);
    BlockPages(b, g, s);
    RangeSize(s, s + b.live[s] + g);
    FewerKeys(b.owner, r);
  }

  lemma LiveFreed(b: Blocks, s: nat, g: nat)
    requires s in b.live
    ensures |WithoutBlock(b, s, b.live[s], g).live| == |b.live| - 1
  {
    hide Range;
    OneLess(b.live, s);
  }

  lemma FewerKeys<K, V>(m: map<K, V>, r: set<K>)
    requires r <= m.Keys
    ensures |(m - r).Keys| == |m.Keys| - |r|
  {
    assert (m - r).Keys == m.Keys - r;
    Together(m.Keys - r, r);
    assert m.Keys == (m.Keys - r) + r;
  }

  lemma OneLess<K, V>(m: map<K, V>, k: K)
    requires k in m
    ensures |m - {k}| == |m| - 1
  {
    assert (m - {k}).Keys == m.Keys - {k};
  }

  /** Every block has a page besides its guard page. */
  lemma {:induction false} BlocksFit(b: Blocks, g: nat)
    requires WellOwned(b, g) && g <= 1
    ensures |b.owner.Keys| >= |b.live| + (if g == 0 then 0 else |b.live|)
    decreases |b.live|
  {
    if b.live != map[] {
      var s :| s in b.live;
      SizesFreed(b, s, g);
      BlockPages(b, g, s);
      BlockFreedOwned(b, s, g);
      BlocksFit(WithoutBlock(b, s, b.live[s], g), g);
    }
  }

  lemma CountFreed(b: Blocks, s: nat, g: nat, used: nat, guarded: nat)
    requires WellOwned(b, g) && Counted(b, g, used, guarded) && s in b.live && g <= 1
    ensures b.live[s] <= used && g <= guarded
    ensures Counted(WithoutBlock(b, s, b.live[s], g), g, used - b.live[s], guarded - g)
  {
    SizesFreed(b, s, g);
    BlockFreedOwned(b, s, g);
    BlocksFit(WithoutBlock(b, s, b.live[s], g), g);
  }

  /** No page is lost: the owned pages are those in use, the guard pages and the free ones. */
  lemma Conserved(owned: set<nat>, runs: seq<Run>, b: Blocks, g: nat, used: nat, guarded: nat)
    requires Partition(owned, FreeList.Pages(runs), b) && Normal(runs) && Counted(b, g, used, guarded)
    ensures |owned| == SHIFT + used + guarded + Total(runs)
  {
    TotalCounts(runs);
    RangeSize(0, SHIFT);
    hide Range, FreeList.Pages;
  }

  /** The m pages at q are all free. */
  ghost predicate Fits(free: set<nat>, q: nat, m: nat) {
    Range(q, q + m) <= free
  }

  /** Where `malloc_pages` finds m pages: at the lowest address where they fit, and if they
      fit nowhere, where the system maps new ones. */
  ghost predicate Chosen(free: set<nat>, m: nat, mmapAt: nat, p: nat) {
    if Fits(free, p, m) then forall q {:trigger Fits(free, q, m)} :: Fits(free, q, m) ==> p <= q
    else p == mmapAt && forall q {:trigger Fits(free, q, m)} :: !Fits(free, q, m)
  }

  /** r is the entry that m pages at p, freed beside `free`, become part of.  At least one
      page of it stays, unless it is only these pages and the cache is full. */
  ghost predicate Joined(free: set<nat>, total: nat, cache: nat, p: nat, m: nat, r: Run) {
    && Maximal(r, free + Range(p, p + m)) && r.start <= p && p + m <= r.End()
    && total <= cache
    && (Over(total, cache, p, m, r) > 0 ==> Over(total, cache, p, m, r) <= r.len)
    && (Over(total, cache, p, m, r) == r.len ==> r == Run(p, m) && total == cache)
  }

  /** By how many pages the list outgrows the cache, as `free_pages` counts them: an entry
      that was absorbed is still part of its count. */
  function Over(total: nat, cache: nat, p: nat, m: nat, r: Run): int {
    total + m + Absorbed(r, p, m) - cache
  }

  /** The free pages and their number after `free_pages`. */
  ghost function FreeAfter(free: set<nat>, total: nat, cache: nat, p: nat, m: nat, r: Run): set<nat> {
    var over := Over(total, cache, p, m, r);
    free + Range(p, p + m) - (if 0 < over <= r.len then Range(r.End() - over, r.End()) else {})
  }

  function TotalAfter(total: nat, cache: nat, p: nat, m: nat, r: Run): int {
    if Over(total, cache, p, m, r) > 0 then cache - Absorbed(r, p, m) else total + m
  }

  /** The pages of chunks: the addresses of their `struct pginfo`. */
  ghost function Infos(tags: map<nat, Tag>): map<nat, nat> {
    map i | i in tags && tags[i].Info? :: tags[i].id
  }

  lemma RunHasNoInfo(tags: map<nat, Tag>, owned: set<nat>, free: set<nat>, b: Blocks, p: nat, n: nat, m: nat)
    requires TagsAgree(tags, free, b) && Partition(owned, free, b)
    requires Range(p, p + m) !! owned || Range(p, p + m) <= free
    ensures Infos(WithRun(tags, p, n, p + m)) == Infos(tags)
  {
    hide Range, RunTag;
    forall i {:trigger i in Infos(tags)} | i in Range(p, p + m)
      ensures i !in Infos(tags)
    {
      assert i in tags ==> i in owned;
      assert i in free ==> TagOf(tags, i) == Free;
    }
    NewTags(tags, p, n, p + m);
  }

  lemma NewTags(tags: map<nat, Tag>, p: nat, n: nat, hi: nat)
    requires forall i {:trigger i in Infos(tags)} :: i in Range(p, hi) ==> i !in Infos(tags)
    ensures Infos(WithRun(tags, p, n, hi)) == Infos(tags)
  {
  }

  lemma BlockHasNoInfo(tags: map<nat, Tag>, free: set<nat>, b: Blocks, g: nat, s: nat)
    requires TagsAgree(tags, free, b) && WellOwned(b, g) && s in b.live && TagOf(tags, s) == First
    ensures Infos(WithFree(tags, s, s + b.live[s] + g)) == Infos(tags)
  {
    assert Owns(b, g, s);
    forall i | i in Range(s, s + b.live[s] + g)
      ensures i !in Infos(tags)
    {
      assert b.owner[i] == s && BlockTag(TagOf(tags, i), s, b.live[s], i);
    }
  }

  lemma FreeHasNoInfo(tags: map<nat, Tag>, free: set<nat>, b: Blocks, lo: nat, hi: nat)
    requires TagsAgree(tags, free, b) && Range(lo, hi) <= free
    ensures Infos(Untagged(tags, lo, hi)) == Infos(tags)
  {
    forall i | i in Range(lo, hi)
      ensures i !in Infos(tags)
    {
      assert TagOf(tags, i) == Free;
    }
  }

  lemma RunStarts(tags: map<nat, Tag>, p: nat, n: nat, hi: nat)
    requires p < hi
    ensures TagOf(WithRun(tags, p, n, hi), p) == First
  {
  }

  /** A block that was taken from the free list leaves the list as it was when it is freed
      again: `malloc_pages` never takes pages from behind a free page, so nothing is
      absorbed, however full the cache is. */
  lemma FreeUndoesMalloc(free: set<nat>, cache: nat, m: nat, mmapAt: nat, p: nat, r: Run, total: nat)
    requires 0 < m && Chosen(free, m, mmapAt, p) && Fits(free, p, m) && |free| <= cache
    requires Joined(free - Range(p, p + m), total, cache, p, m, r) && total == |free - Range(p, p + m)|
    ensures FreeAfter(free - Range(p, p + m), total, cache, p, m, r) == free
    ensures TotalAfter(total, cache, p, m, r) == |free|
  {
    hide Range;
    RangeSize(p, p + m);
    assert free == (free - Range(p, p + m)) + Range(p, p + m);
    assert r.start >= p by { StartsThere(free, m, mmapAt, p, r); }
  }

  lemma StartsThere(free: set<nat>, m: nat, mmapAt: nat, p: nat, r: Run)
    requires 0 < m && Chosen(free, m, mmapAt, p) && Fits(free, p, m) && Range(r.start, r.End()) <= free && p < r.End()
    ensures p <= r.start
  {
    if r.start < p {
      assert p - 1 in Range(r.start, r.End());
      assert Range(p - 1, p - 1 + m) <= Range(p, p + m) + {p - 1};
      assert Fits(free, p - 1, m);
    }
  }

  lemma ChosenFits(free: set<nat>, m: nat, mmapAt: nat, p: nat)
    requires Chosen(free, m, mmapAt, p) && HasRoomFor(free, m)
    ensures Fits(free, p, m)
  {
  }

  lemma FreeTags(tags: map<nat, Tag>, free: set<nat>, b: Blocks, g: nat, i: nat)
    requires TagsAgree(tags, free, b) && WellOwned(b, g)
    ensures TagOf(tags, i) == Free <==> i in free
  {
    if i in b.owner {
      assert Owned(b, g, i);
    }
  }

  lemma FollowTags(tags: map<nat, Tag>, free: set<nat>, b: Blocks, g: nat, i: nat)
    requires TagsAgree(tags, free, b) && WellOwned(b, g) && TagOf(tags, i) == Follow && g <= 1
    ensures 0 < i && i in b.owner && i - 1 in b.owner && b.owner[i] == b.owner[i - 1] && TagOf(tags, i - 1) in {First, Follow}
  {
    assert Owned(b, g, i);
    var s := b.owner[i];
    assert Owns(b, g, s);
    assert BlockTag(TagOf(tags, i - 1), s, b.live[s], i - 1);
  }

  lemma InfoTags(tags: map<nat, Tag>, free: set<nat>, b: Blocks, g: nat, i: nat)
    requires TagsAgree(tags, free, b) && WellOwned(b, g) && TagOf(tags, i).Info?
    ensures i in b.live && b.live[i] == 1 && SHIFT <= i
  {
    assert Owned(b, g, i);
    assert Owns(b, g, b.owner[i]);
  }

  lemma BlockUndone(b: Blocks, s: nat, n: nat, g: nat)
    requires WellOwned(b, g) && s !in b.live && b.owner.Keys !! Range(s, s + n + g)
    ensures WithoutBlock(WithBlock(b, s, n, g), s, n, g) == b
  {
  }

  /** Every entry of the free list names a node of the directory list. */
  ghost predicate Anchored(entries: set<PgFree>, head: PgFree, dirs: set<PdInfo>)
    reads entries`pdir
  {
    forall n {:trigger n.pdir} :: n in entries && n != head ==> n.pdir != null && n.pdir in dirs
  }

  datatype FreeResult = Freed | TooLow | ChunkPage(id: nat) | AlreadyFree | WrongPage | ModifiedPointer

  /** What `ifree` makes of a pointer into page `index`, for the tag that it has read. */
  function Outcome(tag: Tag, index: nat, aligned: bool): FreeResult {
    if index < SHIFT then TooLow
    else match tag
      case Info(id) => ChunkPage(id)
      case Free => AlreadyFree
      case First => if aligned then Freed else ModifiedPointer
      case _ => WrongPage
  }

  /** The pointer is taken for one to a block, or into a page of chunks. */
  predicate Accepts(r: FreeResult) {
    r.Freed? || r.ChunkPage?
  }

  /** The index has no directory page, and the slot that `ifree` reads instead is one it
      goes on with. */
  ghost predicate Misread(dirs: seq<PdInfo>, tags: map<nat, Tag>, heads: seq<Tag>, index: nat, aligned: bool) {
    var tag := SlotRead(tags, heads, ReadAt(dirs, index));
    !HasDir(dirs, PiIdx(index)) && (tag.Info? || (tag == First && aligned))
  }

  /** `ifree` goes on as the slot of the index itself says, or refuses as it should, exactly
      if the index is not misread.  `heads` are the slots of the buckets. */
  lemma DecidesRight(a: PageDirectory.Abstract, heads: seq<Tag>, index: nat, aligned: bool)
    requires Consistent(a) && Needed(a.dirs, a.owned) && Sorted(a.dirs) && SHIFT <= index && |heads| == SHIFT
    ensures var own := Outcome(TagOf(a.tags, index), index, aligned);
            var read := Outcome(SlotRead(a.tags, heads, ReadAt(a.dirs, index)), index, aligned);
            (Accepts(own) || Accepts(read) ==> own == read) <==> !Misread(a.dirs, a.tags, heads, index, aligned)
  {
    hide PiIdx;
    ReadsOwn(a.dirs, index);
    assert index in a.tags ==> HasDir(a.dirs, PiIdx(index));
  }

  /** The slot of r says FREE, and the pages on the free list are those that were there or
      pages from `from` on: no set of blocks agrees with that. */
  ghost predicate Destroyed(r: nat, from: nat, listed: set<nat>, g: nat) {
    forall tags, free, b {:trigger TagsAgree(tags, free, b), WellOwned(b, g)} ::
      TagOf(tags, r) == Free && WellOwned(b, g) && (forall i :: i in free ==> i in listed || from <= i) ==> !TagsAgree(tags, free, b)
  }

  /** A page that is tagged FREE has to be on the list. */
  lemma FreeButNotListed(r: nat, from: nat, listed: set<nat>, g: nat)
    requires r !in listed && r < from
    ensures Destroyed(r, from, listed, g)
  {
    forall tags, free, b | TagOf(tags, r) == Free && WellOwned(b, g) && forall i :: i in free ==> i in listed || from <= i
      ensures !TagsAgree(tags, free, b)
    {
      if TagsAgree(tags, free, b) {
        FreeTags(tags, free, b, g, r);
      }
    }
  }

  /** The slot that is read for a misread index is below it. */
  lemma ReadsBelow(dirs: seq<PdInfo>, index: nat)
    requires 0 < |dirs| && dirs[0].idx == 0 && Sorted(dirs) && !HasDir(dirs, PiIdx(index))
    ensures ReadAt(dirs, index) < index
  {
    var k := NearestTo(dirs, PiIdx(index));
    NearestDecides(dirs, PiIdx(index), k);
    Join(index);
  }

  // An allocator without guard pages: blocks of one page at the indices 20 and 2560, and
  // nothing free.
  const EXAMPLE_BLOCKS := Blocks(map[20 := 1, 2560 := 1], map[20 := 20, 2560 := 2560])
  const EXAMPLE_TAGS: map<nat, Tag> := map[20 := First, 2560 := First]
  ghost const EXAMPLE_OWNED: set<nat> := Range(0, SHIFT) + {20, 2560}

  /** In that state, which has the directory pages 0 and 5, a pointer to index 528 is misread:
      the slot that is read, and marked free, is that of the block at 20. */
  lemma MisreadExample(d0: PdInfo, d5: PdInfo, heads: seq<Tag>)
    requires d0.idx == 0 && d5.idx == 5 && |heads| == SHIFT
    ensures var dirs := [d0, d5];
            && Consistent(PageDirectory.Abstract(dirs, EXAMPLE_OWNED, EXAMPLE_TAGS)) && Sorted(dirs) && Needed(dirs, EXAMPLE_OWNED)
            && WellOwned(EXAMPLE_BLOCKS, 0) && Partition(EXAMPLE_OWNED, {}, EXAMPLE_BLOCKS) && TagsAgree(EXAMPLE_TAGS, {}, EXAMPLE_BLOCKS)
            && ReadAt(dirs, 528) == 20 && Misread(dirs, EXAMPLE_TAGS, heads, 528, true) && Destroyed(20, 528, {}, 0)
  {
    var dirs := [d0, d5];
    assert dirs[0].idx == 0 && dirs[1].idx == 5;
    hide HasDir, NearestTo, ReadAt, Needed, Destroyed, PiIdx, PiOff, WellOwned, Partition, TagsAgree, Range;
    ExampleTags();
    ExampleWellOwned();
    ExampleOwned();
    ExampleNeeded(dirs);
    ExampleReads(dirs);
    FreeButNotListed(20, 528, {}, 0);
  }

  lemma ExampleTags()
    ensures TagsAgree(EXAMPLE_TAGS, {}, EXAMPLE_BLOCKS)
  {
    assert EXAMPLE_TAGS.Keys == {20, 2560} && EXAMPLE_BLOCKS.owner.Keys == {20, 2560};
  }

  lemma ExampleWellOwned()
    ensures WellOwned(EXAMPLE_BLOCKS, 0)
  {
    var b := EXAMPLE_BLOCKS;
    assert Owns(b, 0, 20) && Owns(b, 0, 2560) && Owned(b, 0, 20) && Owned(b, 0, 2560);
  }

  lemma ExampleOwned()
    ensures Partition(EXAMPLE_OWNED, {}, EXAMPLE_BLOCKS) && 20 in EXAMPLE_OWNED && 2560 in EXAMPLE_OWNED
    ensures forall i: nat {:trigger i in EXAMPLE_OWNED} :: i < SHIFT ==> i in EXAMPLE_OWNED
  {
  }

  lemma ExampleNeeded(dirs: seq<PdInfo>)
    requires |dirs| == 2 && dirs[0].idx == 0 && dirs[1].idx == 5
    ensures Needed(dirs, EXAMPLE_OWNED)
  {
    var owned := EXAMPLE_OWNED;
    forall i | i in owned
      ensures HasDir(dirs, PiIdx(i))
    {
      assert i == 2560 ==> PiIdx(i) == dirs[1].idx;
      assert i != 2560 ==> PiIdx(i) == dirs[0].idx;
    }
    CountAdd(owned - {2560}, 5, 2560, 2561);
    assert owned - {2560} + Range(2560, 2561) == owned;
  }

  lemma ExampleReads(dirs: seq<PdInfo>)
    requires |dirs| == 2 && dirs[0].idx == 0 && dirs[1].idx == 5
    ensures ReadAt(dirs, 528) == 20 && !HasDir(dirs, PiIdx(528))
  {
    assert NearestTo(dirs, 1) == 0;
    assert PiIdx(528) == 1 && PiOff(528) == 20;
  }

  /** A block whose guard page is tagged FREE is no block any more, wherever the list is. */
  lemma GuardFreed(tags: map<nat, Tag>, free: set<nat>, b: Blocks, s: nat)
    requires WellOwned(b, 1) && s in b.live && TagOf(tags, s + b.live[s]) == Free
    ensures !TagsAgree(tags, free, b)
  {
    assert Owns(b, 1, s);
  }

  /** The page after the pages of a block. */
  ghost predicate IsGuard(b: Blocks, i: nat) {
    i in b.owner && b.owner[i] in b.live && i == b.owner[i] + b.live[b.owner[i]]
  }

  /** The first pages of blocks, and guard pages, are the pages with the tag FIRST. */
  lemma FirstTags(tags: map<nat, Tag>, free: set<nat>, b: Blocks, g: nat, i: nat)
    requires TagsAgree(tags, free, b) && WellOwned(b, g) && g <= 1
    ensures TagOf(tags, i) == First <==> (i in b.live && i !in Infos(tags)) || IsGuard(b, i)
  {
    if i in b.owner {
      assert Owned(b, g, i);
      assert BlockTag(TagOf(tags, i), b.owner[i], b.live[b.owner[i]], i);
    }
    if i in b.live {
      assert Owns(b, g, i);
      assert i in b.owner && b.owner[i] == i;
    }
  }

  ghost function SizeIn(b: Blocks, s: nat): nat {
    if s in b.live then b.live[s] else 0
  }

  /** Some m consecutive pages are free. */
  ghost predicate HasRoomFor(free: set<nat>, m: nat) {
    exists q :: Fits(free, q, m)
  }

  class Pages {
    const dir: Directory
    const list: List
    const g: nat      // malloc_guard, in pages: 0 or 1
    const cache: nat  // malloc_cache, in pages
    var used: nat     // malloc_used, in pages
    var guarded: nat  // malloc_guarded, in pages
    ghost var blocks: Blocks

    /** The three structures agree, and no page is lost. */
    ghost predicate Agree()
      reads this, dir`abs, list`abs
    {
      && WellOwned(blocks, g)
      && TagsAgree(dir.abs.tags, list.Free(), blocks)
      && Partition(dir.abs.owned, list.Free(), blocks)
      && Counted(blocks, g, used, guarded)
    }

    /** Valid, but for the size of the cache. */
    ghost predicate Loose()
      reads this, dir, dir.abs.dirs, list, list.head, list.abs.nodes, list.Nodes()
    {
      g <= 1 && dir.Valid() && list.Valid() && Anchored(list.Nodes(), list.head, dir.Nodes()) && Agree()
    }

    ghost predicate Valid()
      reads this, dir, dir.abs.dirs, list, list.head, list.abs.nodes, list.Nodes()
    {
      Loose() && Total(list.abs.runs) <= cache
    }

    constructor (g: nat, cache: nat)
      requires g <= 1
      ensures Valid() && blocks == Blocks(map[], map[]) && dir.abs.tags == map[] && this.g == g && this.cache == cache
    {
      hide Directory.Valid, List.Valid, FreeList.Pages, Total, List.Free, List.Nodes, Directory.Nodes, WellOwned, TagsAgree, Partition, Range;
      NothingMade(g);
      this.g, this.cache := g, cache;
      dir := new Directory();
      list := new List();
      used, guarded := 0, 0;
      blocks := Blocks(map[], map[]);
      new;
      assert Anchored({list.head}, list.head, dir.Nodes());
    }

    /** `malloc_pages` when entry k of the free list is large enough: it is taken whole, or
        its front is. */
    method TakeEntry(pf: PgFree, need: nat, ghost k: nat) returns (p: nat)
      requires dir.Valid() && list.Valid() && Anchored(list.Nodes(), list.head, dir.Nodes())
      requires k < |list.abs.nodes| && pf == list.abs.nodes[k] && 0 < need <= list.abs.runs[k].len
      requires list.Free() <= dir.abs.owned
      modifies list`abs, list.Nodes()
      ensures list.Valid() && Anchored(list.Nodes(), list.head, dir.Nodes()) && list.Nodes() <= old(list.Nodes())
      ensures p == old(list.abs.runs)[k].start && Range(p, p + need) <= old(list.Free())
      ensures list.Free() == old(list.Free()) - Range(p, p + need)
      ensures Total(list.abs.runs) + need == old(Total(list.abs.runs))
    {
      hide Normal, Total, FreeList.Pages, Range, PiIdx, Directory.Valid, Directory.Nodes, List.Valid, List.Free;
      FrontOf(pf, need, k);
      p := pf.page;
      if pf.size == need {
        list.Remove(pf, k);
      } else {
        var page := p + need;
        var pi := dir.NodeFor(pf.pdir, page);
        list.Resize(pf, page, pf.size - need, pi, k);
      }
    }

    /** What `malloc_pages` relies on when it takes the front of entry k. */
    lemma FrontOf(pf: PgFree, need: nat, k: nat)
      requires dir.Valid() && list.Valid() && Anchored(list.Nodes(), list.head, dir.Nodes())
      requires k < |list.abs.nodes| && pf == list.abs.nodes[k] && 0 < need <= list.abs.runs[k].len
      requires list.Free() <= dir.abs.owned
      ensures var r := list.abs.runs[k];
              pf in list.Nodes() && pf != list.head && |list.abs.nodes| == |list.abs.runs| &&
              pf.page == r.start && pf.size == r.len && pf.pdir != null && pf.pdir.idx == PiIdx(pf.page) && pf.pdir in dir.Nodes() &&
              Range(r.start, r.start + need) <= list.Free() && PiIdx(r.start) <= PiIdx(r.start + need) &&
              (need < r.len ==> r.start + need in dir.abs.owned)
      ensures 0 < k ==> list.abs.runs[k - 1].End() < pf.page
      ensures k + 1 < |list.abs.runs| ==> pf.page + pf.size < list.abs.runs[k + 1].start
      ensures var r := list.abs.runs[k]; var f := list.Free();
              f - Range(r.start, r.End()) + Range(r.start + need, r.End()) == f - Range(r.start, r.start + need)
    {
      hide Total, FreeList.Pages;
      list.About(pf, k);
      assert Range(list.abs.runs[k].End(), list.abs.runs[k].End()) == {};
      Neighbours(list.abs.runs, k, 0);
      InOrder(pf.page, pf.page + need);
    }
  
    /** The m pages at p are in no block and not free any more: the state between the search
        of `malloc_pages` and the marking of the pages. */
    ghost predicate InHand(p: nat, m: nat, mapped: bool, owned: set<nat>, free: set<nat>)
      reads this, dir`abs, list`abs
    {
      && TagsAgree(dir.abs.tags, free, blocks) && WellOwned(blocks, g) && Partition(owned, free, blocks)
      && (if mapped then Range(p, p + m) !! owned && dir.abs.owned == owned + Range(p, p + m) && list.Free() == free
          else Range(p, p + m) <= free && dir.abs.owned == owned && list.Free() == free - Range(p, p + m))
      && SHIFT <= p && Counted(blocks, g, used, guarded)
    }

    lemma KnownInHand(p: nat, n: nat, m: nat, mapped: bool, owned: set<nat>, free: set<nat>)
      requires InHand(p, m, mapped, owned, free) && m == n + g && 0 < n
      ensures WithoutBlock(WithBlock(blocks, p, n, g), p, n, g) == blocks && SHIFT <= p
      ensures list.Free() == free - Range(p, p + m) && dir.abs.owned == owned + Range(p, p + m)
    {
      hide Range, WellOwned, TagsAgree, Counted, WithBlock, WithoutBlock;
      ClearOfBlocks(owned, free, blocks, p, m, mapped);
      BlockMadeOwned(blocks, p, n, g);
      BlockUndone(blocks, p, n, g);
    }

    /** The first half of `malloc_pages`: m pages from the free list, or from the system. */
    method Obtain(m: nat, mmapAt: nat) returns (p: nat, ghost mapped: bool)
      requires Valid() && 0 < m && SHIFT <= mmapAt && Range(mmapAt, mmapAt + m) !! dir.abs.owned
      modifies dir, dir.Nodes(), list`abs, list.Nodes()
      ensures dir.Valid() && list.Valid() && Anchored(list.Nodes(), list.head, dir.Nodes())
      ensures list.Nodes() <= old(list.Nodes()) && dir.Grown()
      ensures InHand(p, m, mapped, old(dir.abs.owned), old(list.Free())) && Total(list.abs.runs) <= cache
      ensures dir.abs.tags == old(dir.abs.tags)
      ensures Chosen(old(list.Free()), m, mmapAt, p)
    {
      hide Agree, InHand, Total, Range, Directory.Valid, List.Valid, List.Free, Chosen;
      var pf, k := list.FirstFit(m);
      IsFirstFit(m, k, mmapAt);
      if pf != null {
        mapped := false;
        p := ObtainFree(pf, m, k);
      } else {
        mapped := true;
        p := mmapAt;
        ObtainMapped(m, mmapAt);
      }
    }

    method ObtainFree(pf: PgFree, m: nat, ghost k: nat) returns (p: nat)
      requires Valid() && k < |list.abs.nodes| && pf == list.abs.nodes[k] && 0 < m <= list.abs.runs[k].len
      modifies list`abs, list.Nodes()
      ensures list.Valid() && Anchored(list.Nodes(), list.head, dir.Nodes()) && list.Nodes() <= old(list.Nodes())
      ensures p == old(list.abs.runs)[k].start && InHand(p, m, false, dir.abs.owned, old(list.Free())) && Total(list.abs.runs) <= cache
    {
      hide Total, Directory.Valid, Directory.Nodes, List.Valid, List.Nodes, List.Free, WellOwned, TagsAgree, Range, Anchored;
      p := TakeEntry(pf, m, k);
      NotABucket(dir.abs.owned, old(list.Free()), blocks, p, m);
      hide Partition;
    }

    method ObtainMapped(m: nat, mmapAt: nat)
      requires Valid() && 0 < m && SHIFT <= mmapAt && Range(mmapAt, mmapAt + m) !! dir.abs.owned
      modifies dir, dir.Nodes()
      ensures dir.Valid() && dir.Grown() && Anchored(list.Nodes(), list.head, dir.Nodes())
      ensures InHand(mmapAt, m, true, old(dir.abs.owned), list.Free()) && dir.abs.tags == old(dir.abs.tags)
    {
      hide Total, Range, PiIdx, Directory.Valid, List.Valid, List.Free, WellOwned, TagsAgree, Partition;
      dir.MapPages(mmapAt, m);
    }

    lemma IsFirstFit(m: nat, k: nat, mmapAt: nat)
      requires list.Valid() && 0 < m && k <= |list.abs.runs| && forall j :: 0 <= j < k ==> list.abs.runs[j].len < m
      ensures if k < |list.abs.runs| then m <= list.abs.runs[k].len ==> Chosen(list.Free(), m, mmapAt, list.abs.runs[k].start)
              else Chosen(list.Free(), m, mmapAt, mmapAt)
    {
      var runs := list.abs.runs;
      hide FreeList.Pages, Range;
      if k < |runs| {
        RunPages(runs, k);
        SubRange(runs[k].start, runs[k].start + m, runs[k].End());
      }
      forall q: nat | Fits(list.Free(), q, m)
        ensures k < |runs| && (m <= runs[k].len ==> runs[k].start <= q)
      {
        FirstFitIsLowest(runs, k, m, q);
      }
    }
  
    /** The second half of `malloc_pages`: the pages become a block. */
    method Hand(p: nat, n: nat, ghost mapped: bool, ghost owned: set<nat>, ghost free: set<nat>)
      requires g <= 1 && dir.Valid() && list.Valid() && Anchored(list.Nodes(), list.head, dir.Nodes()) && Total(list.abs.runs) <= cache
      requires 0 < n && InHand(p, n + g, mapped, owned, free)
      modifies this`used, this`guarded, this`blocks, dir`lastDir, dir`prevDir, dir`abs, dir.Nodes()`base
      ensures Valid() && dir.Nodes() == old(dir.Nodes()) && dir.abs.owned == old(dir.abs.owned) && TagOf(dir.abs.tags, p) == First
      ensures old(p !in blocks.live) && blocks == WithBlock(old(blocks), p, n, g)
      ensures used == old(used) + n && guarded == old(guarded) + g && Infos(dir.abs.tags) == old(Infos(dir.abs.tags))
    {
      hide Total, Range, Directory.Valid, Directory.Nodes, List.Valid, List.Free, WellOwned, TagsAgree, Partition, Counted, WithBlock, WithRun, Infos;
      RunHasNoInfo(dir.abs.tags, owned, free, blocks, p, n, n + g);
      Made(dir.abs.owned, owned, dir.abs.tags, free, list.Free(), blocks, p, n, g, used, guarded, mapped);
      RunStarts(dir.abs.tags, p, n, p + n + g);
      dir.MarkRun(p, n, g);
      used, guarded := used + n, guarded + g;
      blocks := WithBlock(blocks, p, n, g);
    }

    /** `malloc_pages`, for a size of n pages: `mmapAt` is where the system would map fresh
        pages.  The block is new, the other blocks stay as they are, and the pages come from
        the lowest free run that is large enough. */
    method MallocPages(n: nat, mmapAt: nat) returns (p: nat)
      requires Valid() && 0 < n && SHIFT <= mmapAt && Range(mmapAt, mmapAt + n + g) !! dir.abs.owned
      modifies this`used, this`guarded, this`blocks, dir, dir.Nodes(), list`abs, list.Nodes()
      ensures Valid() && dir.Grown() && list.Nodes() <= old(list.Nodes())
      ensures old(p !in blocks.live) && blocks == WithBlock(old(blocks), p, n, g) && WithoutBlock(blocks, p, n, g) == old(blocks)
      ensures used == old(used) + n && guarded == old(guarded) + g && blocks.live == old(blocks.live)[p := n] && SHIFT <= p
      ensures Chosen(old(list.Free()), n + g, mmapAt, p) && TagOf(dir.abs.tags, p) == First
      ensures list.Free() == old(list.Free()) - Range(p, p + n + g) && dir.abs.owned == old(dir.abs.owned) + Range(p, p + n + g)
      ensures Infos(dir.abs.tags) == old(Infos(dir.abs.tags))
    {
      hide Infos, Agree, InHand, Total, Range, Directory.Valid, List.Valid, List.Free, Chosen, Anchored;
      ghost var mapped;
      p, mapped := Obtain(n + g, mmapAt);
      KnownInHand(p, n, n + g, mapped, old(dir.abs.owned), old(list.Free()));
      Hand(p, n, mapped, old(dir.abs.owned), old(list.Free()));
    }

    // ----- free_pages

    /** The m pages at p belong to no block any more, and are not in the list yet. */
    ghost predicate Between(p: nat, m: nat)
      reads this, dir`abs, list`abs
    {
      && WellOwned(blocks, g) && Counted(blocks, g, used, guarded)
      && TagsAgree(dir.abs.tags, list.Free() + Range(p, p + m), blocks)
      && Partition(dir.abs.owned, list.Free() + Range(p, p + m), blocks)
      && list.Free() !! Range(p, p + m) && SHIFT <= p
    }

    /** The first part of `free_pages`: the pages of the block at `index` are counted and
        marked free; n is the size that the block was handed out with. */
    method TakeBack(index: nat, ghost n: nat) returns (m: nat, spi: PdInfo)
      requires Valid() && index in blocks.live && n == blocks.live[index] && TagOf(dir.abs.tags, index) == First
      modifies this`used, this`guarded, this`blocks, dir`abs, dir.Nodes()`base
      ensures dir.Valid() && dir.Nodes() == old(dir.Nodes()) && dir.abs.owned == old(dir.abs.owned)
      ensures m == n + g && 0 < m && Between(index, m) && spi in dir.Nodes() && spi.idx == PiIdx(index)
      ensures blocks == WithoutBlock(old(blocks), index, n, g)
      ensures used + n == old(used) && guarded + g == old(guarded) && Infos(dir.abs.tags) == old(Infos(dir.abs.tags))
    {
      hide Infos, Total, Range, PiIdx, Directory.Valid, List.Valid, List.Free, List.Nodes, WellOwned, TagsAgree, Partition, Counted, WithoutBlock, WithFree, RunAt;
      Unmade(dir.abs.owned, dir.abs.tags, list.Free(), blocks, index, g, used, guarded);
      BlockHasNoInfo(dir.abs.tags, list.Free(), blocks, g, index);
      var pages;
      ghost var k0;
      pages, spi, k0 := dir.FreeRun(index, g, n);
      used, guarded := used - pages, guarded - g;
      m := pages + g;
      blocks := WithoutBlock(blocks, index, n, g);
    }

    /** The second part: "add to free-list". */
    method PutBack(index: nat, m: nat, spi: PdInfo) returns (pf: PgFree, cachesize: nat, ghost k: nat, ghost absorbed: nat)
      requires g <= 1 && dir.Valid() && list.Valid() && Anchored(list.Nodes(), list.head, dir.Nodes())
      requires 0 < m && Between(index, m) && spi in dir.Nodes() && spi.idx == PiIdx(index)
      modifies list`abs, list.Nodes()
      ensures Loose() && k < |list.abs.nodes| == |list.abs.runs| && pf == list.abs.nodes[k]
      ensures Total(list.abs.runs) == old(Total(list.abs.runs)) + m
      ensures cachesize + list.abs.runs[k].len == Total(list.abs.runs) + absorbed && cachesize <= old(Total(list.abs.runs))
      ensures list.Free() == old(list.Free()) + Range(index, index + m) && Maximal(list.abs.runs[k], list.Free())
      ensures list.abs.runs[k].start <= index && index + m <= list.abs.runs[k].End() && absorbed == Absorbed(list.abs.runs[k], index, m)
      ensures forall x :: x in list.Nodes() ==> x in old(list.Nodes()) || fresh(x)
      ensures cachesize == old(Total(list.abs.runs)) ==> list.abs.runs[k] == Run(index, m)
    {
      hide Total, Range, PiIdx, Directory.Valid, Directory.Nodes, List.Free, WellOwned, TagsAgree, Partition, Counted, Normal, Chain, Describes;
      var px := new PgFree(index, m, spi);
      pf, cachesize, k, absorbed := list.Insert(px);
      list.EntryMaximal(k);
    }

    /** The entries of the free list still name nodes of the directory after the release of
        pages that are not in it any more. */
    lemma StillAnchored(dirs: seq<PdInfo>)
      requires dir.Valid() && list.Valid() && Sorted(dirs) && dir.Nodes() <= set x | x in dirs
      requires list.Free() <= dir.abs.owned
      requires forall n {:trigger n.pdir} :: n in list.Nodes() && n != list.head ==> n.pdir != null && n.pdir in dirs
      ensures Anchored(list.Nodes(), list.head, dir.Nodes())
    {
      hide Range, FreeList.Pages, Sorted;
      forall n {:trigger n.pdir} | n in list.Nodes() && n != list.head
        ensures n.pdir in dir.Nodes()
      {
        var k: nat :| k < |list.abs.nodes| && n == list.abs.nodes[k];
        list.About(n, k);
        FirstPage(list.abs.runs, k);
        dir.Kept(dirs, n.pdir, n.page);
      }
    }

    /** "Return something to OS?": the end of the entry that was just made or widened goes
        back to the system if the cache is too large.  `cachesize` counts the other
        entries, and the one that was absorbed besides. */
    method Trim(pf: PgFree, cachesize: nat, ghost k: nat, ghost absorbed: nat)
      requires Loose() && k < |list.abs.nodes| == |list.abs.runs| && pf == list.abs.nodes[k]
      requires cachesize + list.abs.runs[k].len == Total(list.abs.runs) + absorbed && cachesize <= cache
      modifies dir`lastDir, dir`prevDir, dir`abs, dir.Nodes(), list`abs, list.Nodes()
      ensures Valid() && list.Nodes() <= old(list.Nodes()) && dir.Nodes() <= old(dir.Nodes())
      ensures var r := old(list.abs.runs[k]); var over := old(Total(list.abs.runs)) + absorbed > cache;
              var cut := if over then r.start + (cache - cachesize) else r.End();
              && cut <= r.End() && list.Free() == old(list.Free()) - Range(cut, r.End())
              && Total(list.abs.runs) == if over then cache - absorbed else old(Total(list.abs.runs))
      ensures Infos(dir.abs.tags) == old(Infos(dir.abs.tags))
    {
      hide Infos, Total, Range, PiIdx, Directory.Valid, List.Valid, List.Free, Agree;
      KnownEntry(pf, k);
      dir.Touch(pf.pdir);
      if pf.size > cache - cachesize {
        Cut(pf, cache - cachesize, k);
      }
    }

    method Cut(pf: PgFree, keep: nat, ghost k: nat)
      requires Loose() && k < |list.abs.nodes| == |list.abs.runs| && pf == list.abs.nodes[k] && keep < list.abs.runs[k].len
      requires dir.lastDir == pf.pdir
      modifies dir`lastDir, dir`prevDir, dir`abs, dir.Nodes(), list`abs, list.Nodes()
      ensures Loose() && list.Nodes() <= old(list.Nodes()) && dir.Nodes() <= old(dir.Nodes())
      ensures var r := old(list.abs.runs[k]);
              && list.Free() == old(list.Free()) - Range(r.start + keep, r.End())
              && Total(list.abs.runs) + r.len == old(Total(list.abs.runs)) + keep
      ensures Infos(dir.abs.tags) == old(Infos(dir.abs.tags))
    {
      hide Infos, Total, Range, PiIdx, Directory.Valid, List.Valid, List.Free, WellOwned, TagsAgree, Partition, Counted, Without, Untagged;
      KnownEntry(pf, k);
      ghost var dirs := dir.abs.dirs;
      ghost var r := list.abs.runs[k];
      KeepFront(list.Free(), r.start, r.start + keep, r.End());
      Given(dir.abs.owned, dir.abs.tags, list.Free(), blocks, r.start + keep, r.End());
      FreeHasNoInfo(dir.abs.tags, list.Free(), blocks, r.start + keep, r.End());
      dir.Unmap(pf.pdir, pf.page + keep, pf.page + pf.size, keep == 0, pf.page);
      if keep == 0 {
        list.Remove(pf, k);
      } else {
        list.Resize(pf, pf.page, keep, pf.pdir, k);
      }
      StillAnchored(dirs);
    }

    /** What `free_pages` relies on about the entry it has just made or widened. */
    lemma KnownEntry(pf: PgFree, k: nat)
      requires Loose() && k < |list.abs.nodes| == |list.abs.runs| && pf == list.abs.nodes[k]
      ensures var r := list.abs.runs[k];
              pf in list.Nodes() && pf.page == r.start && pf.size == r.len && 0 < r.len && SHIFT <= r.start
              && pf.pdir != null && pf.pdir.idx == PiIdx(pf.page) && pf.pdir in dir.Nodes() && pf.pdir in dir.abs.dirs
              && Range(r.start, r.End()) <= list.Free() && list.Free() <= dir.abs.owned && r.start in dir.abs.owned
              && (0 < k ==> list.abs.runs[k - 1].End() < r.start)
              && (k + 1 < |list.abs.runs| ==> r.End() < list.abs.runs[k + 1].start)
      ensures Sorted(dir.abs.dirs) && dir.Nodes() <= set x | x in dir.abs.dirs
    {
      hide FreeList.Pages, Total, Range, WellOwned, TagsAgree, Counted, Chain, Packed, Stores, Needed, Consistent, PiIdx;
      var r := list.abs.runs[k];
      list.About(pf, k);
      FirstPage(list.abs.runs, k);
      RunPages(list.abs.runs, k);
      NotABucket(dir.abs.owned, list.Free(), blocks, r.start, r.len);
    }

    /** `free_pages` of the block at `index`.  The block is gone and the others stay; its
        pages join the free list, in entry r.  If the list outgrows the cache, the end of r
        goes back to the system. */
    method FreePages(index: nat) returns (ghost r: Run)
      requires Valid() && index in blocks.live && TagOf(dir.abs.tags, index) == First
      modifies this`used, this`guarded, this`blocks, dir`lastDir, dir`prevDir, dir`abs, dir.Nodes(), list`abs, list.Nodes()
      ensures Valid() && blocks == WithoutBlock(old(blocks), index, old(blocks.live[index]), g)
      ensures used + old(blocks.live[index]) == old(used) && guarded + g == old(guarded)
      ensures Joined(old(list.Free()), old(Total(list.abs.runs)), cache, index, old(blocks.live[index]) + g, r)
      ensures list.Free() == FreeAfter(old(list.Free()), old(Total(list.abs.runs)), cache, index, old(blocks.live[index]) + g, r)
      ensures Total(list.abs.runs) == TotalAfter(old(Total(list.abs.runs)), cache, index, old(blocks.live[index]) + g, r)
      ensures dir.Nodes() <= old(dir.Nodes()) && forall x :: x in list.Nodes() ==> x in old(list.Nodes()) || fresh(x)
      ensures Infos(dir.abs.tags) == old(Infos(dir.abs.tags))
    {
      hide Infos, Total, Range, PiIdx, Directory.Valid, Directory.Nodes, List.Valid, Anchored, Agree, Between, FreeList.Pages;
      var m, spi := TakeBack(index, blocks.live[index]);
      var pf, cachesize;
      ghost var k, absorbed;
      pf, cachesize, k, absorbed := PutBack(index, m, spi);
      hide Maximal;
      r := list.abs.runs[k];
      Trim(pf, cachesize, k, absorbed);
    }

    /** Makes a block of one page a page of chunks, whose `struct pginfo` is at `id`, or
        such a page a plain block again: `pd[PI_OFF(index)] = tag`. */
    method Retag(index: nat, tag: Tag)
      requires Valid() && index in blocks.live && blocks.live[index] == 1 && (tag == First || tag.Info?)
      modifies dir`lastDir, dir`prevDir, dir`abs, dir.Nodes()`base
      ensures Valid() && dir.Nodes() == old(dir.Nodes()) && dir.abs.owned == old(dir.abs.owned)
      ensures dir.abs.tags == old(dir.abs.tags)[index := tag]
    {
      hide Total, Range, PiIdx, WellOwned, Partition, Counted, Directory.Valid, List.Valid, List.Free, TagOf, BlockTag;
      Retagged(dir.abs.owned, dir.abs.tags, list.Free(), blocks, g, index, tag);
      var pi, k := dir.Find(index);
      hide TagsAgree;
      dir.Touch(pi);
      dir.Write(pi, index, tag, k);
    }

    /** A page of chunks is a block of one page. */
    lemma InfoPage(i: nat)
      requires Valid() && i in Infos(dir.abs.tags)
      ensures i in blocks.live && blocks.live[i] == 1 && SHIFT <= i
    {
      hide Total, Range, Directory.Valid, List.Valid, Partition, Counted, List.Free;
      assert TagOf(dir.abs.tags, i).Info?;
      InfoTags(dir.abs.tags, list.Free(), blocks, g, i);
    }

    /** What the directory says about a page with a tag, and about a block. */
    lemma TagKinds(i: nat)
      requires Valid()
      ensures TagOf(dir.abs.tags, i) != NotMine ==> HasDir(dir.abs.dirs, PiIdx(i))
      ensures TagOf(dir.abs.tags, i).Info? <==> i in Infos(dir.abs.tags)
      ensures i in Infos(dir.abs.tags) ==> TagOf(dir.abs.tags, i) == Info(Infos(dir.abs.tags)[i])
      ensures i in blocks.live && i !in Infos(dir.abs.tags) ==> TagOf(dir.abs.tags, i) == First && SHIFT <= i
    {
      hide Total, Range, List.Valid, Partition, Counted, List.Free, PiIdx, Chained, Packed, Stores, HasDir;
      if i in blocks.live {
        assert Owns(blocks, g, i);
        assert i in blocks.owner && blocks.owner[i] == i;
      }
    }

    /** The outcome of `ifree`, as far as the page allocator decides it.  A guard page is
        tagged FIRST like the start of a block, and the slot that is read may be another
        page's, or a bucket's: only what is taken for a block has to be one. */
    method FreePointer(index: nat, aligned: bool, heads: seq<Tag>) returns (result: FreeResult)
      requires Valid() && |heads| == SHIFT
      requires aligned && SlotRead(dir.abs.tags, heads, ReadAt(dir.abs.dirs, index)) == First ==> index in blocks.live && index !in Infos(dir.abs.tags)
      modifies this`used, this`guarded, this`blocks, dir`lastDir, dir`prevDir, dir`abs, dir.Nodes(), list`abs, list.Nodes()
      ensures Valid()
      ensures result == Outcome(SlotRead(old(dir.abs.tags), heads, old(ReadAt(dir.abs.dirs, index))), index, aligned)
      ensures result == Freed ==> blocks == WithoutBlock(old(blocks), index, SizeIn(old(blocks), index), g)
      ensures result != Freed ==> blocks == old(blocks) && list.abs == old(list.abs) && dir.abs == old(dir.abs)
      ensures dir.Nodes() <= old(dir.Nodes()) && forall x :: x in list.Nodes() ==> x in old(list.Nodes()) || fresh(x)
      ensures Infos(dir.abs.tags) == old(Infos(dir.abs.tags))
    {
      hide Infos, Total, Range, PiIdx, WithoutBlock, Agree, FreeAfter, Joined, List.Valid, Directory.Valid, HasDir, TagOf, ReadAt, SlotRead;
      if index < SHIFT {
        return TooLow;
      }
      var tag := dir.Inspect(index, heads);
      result := Outcome(tag, index, aligned);
      if result == Freed {
        TagKinds(index);
        var _ := FreePages(index);
      }
    }

    /** What `free_pages` does to the directory for a misread index that it takes for a block.
        On the free list it puts pages from `index` on, and takes some off again if the cache
        is full; whatever it does there, and whatever becomes of other slots, no set of blocks
        agrees with the result. */
    method FreeMisread(index: nat) returns (pages: nat, ghost r: nat, ghost tags': map<nat, Tag>)
      requires Valid() && !HasDir(dir.abs.dirs, PiIdx(index)) && TagOf(dir.abs.tags, ReadAt(dir.abs.dirs, index)) == First
      modifies dir.Nodes()`base
      ensures 0 < pages && dir.Laid(tags') && r == ReadAt(dir.abs.dirs, index) && r in blocks.owner && TagOf(tags', r) == Free
      ensures Destroyed(r, index, list.Free(), g)
    {
      hide Total, Range, PiIdx, PiOff, Directory.Valid, List.Valid, List.Free, HasDir, ReadAt, Partition, Counted, Anchored, Destroyed;
      MisreadBlock(index);
      r := ReadAt(dir.abs.dirs, index);
      FreeButNotListed(r, index, list.Free(), g);
      var spi;
      pages, spi, tags' := dir.FreeSeen(index, g);
    }

    /** The slot that is read belongs to a block, below the index. */
    lemma MisreadBlock(index: nat)
      requires Valid() && !HasDir(dir.abs.dirs, PiIdx(index)) && TagOf(dir.abs.tags, ReadAt(dir.abs.dirs, index)) == First
      ensures var r := ReadAt(dir.abs.dirs, index); r < index && r in blocks.owner && r !in list.Free()
    {
      hide Total, Range, PiIdx, PiOff, List.Valid, List.Free, HasDir, ReadAt, Partition, Counted, Anchored, Packed, Stores, Needed, Linked;
      ReadsBelow(dir.abs.dirs, index);
      FreeTags(dir.abs.tags, list.Free(), blocks, g, ReadAt(dir.abs.dirs, index));
    }

    /** The size that `irealloc` finds for a block of pages. */
    method SizeOf(index: nat) returns (pages: nat)
      requires Valid() && index in blocks.live && TagOf(dir.abs.tags, index) == First
      ensures pages == blocks.live[index]
    {
      hide Total, Range, PiIdx, WellOwned, TagsAgree, Partition, Directory.Valid, RunAt;
      RunKnown(dir.abs.owned, dir.abs.tags, list.Free(), blocks, index, g);
      FirstIn(index, blocks.live[index] + g);
      pages := dir.RunLength(index, blocks.live[index]);
    }

    /** `malloc_pages` and `free_pages` of the same block: nothing is different afterwards,
        if the block came from the free list. */
    method MallocFree(n: nat, mmapAt: nat)
      requires Valid() && 0 < n && SHIFT <= mmapAt && Range(mmapAt, mmapAt + n + g) !! dir.abs.owned
      modifies this`used, this`guarded, this`blocks, dir, dir.Nodes(), list`abs, list.Nodes()
      ensures Valid() && blocks == old(blocks)
      ensures HasRoomFor(old(list.Free()), n + g) ==> list.abs.runs == old(list.abs.runs)
    {
      hide Total, Range, PiIdx, WithoutBlock, WithBlock, Agree, FreeAfter, Joined, TotalAfter, List.Nodes, List.Valid, Directory.Valid, Directory.Nodes, List.Free, HasDir, Anchored, Chosen, Fits, TagOf;
      ghost var free, m := list.Free(), n + g;
      FreeSize();
      var p := MallocPages(n, mmapAt);
      FreeSize();
      ghost var total := Total(list.abs.runs);
      ghost var r := FreePages(p);
      if HasRoomFor(free, m) {
        ChosenFits(free, m, mmapAt, p);
        FreeUndoesMalloc(free, cache, m, mmapAt, p, r, total);
        SameRuns(old(list.abs.runs));
      }
    }

    lemma SameRuns(runs: seq<Run>)
      requires list.Valid() && Normal(runs) && list.Free() == FreeList.Pages(runs)
      ensures list.abs.runs == runs
    {
      NormalUnique(list.abs.runs, runs);
    }

    /** A free page is in exactly one entry of the free list, and in no block; the other
        pages in the list are none. */
    lemma FreePage(i: nat)
      requires Valid()
      ensures TagOf(dir.abs.tags, i) == Free <==> exists k :: Holds(list.abs.runs, k, i)
      ensures TagOf(dir.abs.tags, i) == Free ==> i in dir.abs.owned && i !in blocks.owner
      ensures forall j, k :: Holds(list.abs.runs, j, i) && Holds(list.abs.runs, k, i) ==> j == k
    {
      hide FreeList.Pages, Total, Range, Counted, Chain, Directory.Valid;
      PagesIn(list.abs.runs, i);
      FreeTags(dir.abs.tags, list.Free(), blocks, g, i);
    }

    /** Every FOLLOW comes after a FIRST or FOLLOW of the same block. */
    lemma FollowPage(i: nat)
      requires Valid() && TagOf(dir.abs.tags, i) == Follow
      ensures 0 < i && i in blocks.owner && i - 1 in blocks.owner && blocks.owner[i] == blocks.owner[i - 1]
      ensures TagOf(dir.abs.tags, i - 1) in {First, Follow}
    {
      hide FreeList.Pages, Total, Range, Counted, List.Valid, Directory.Valid;
      FollowTags(dir.abs.tags, list.Free(), blocks, g, i);
    }

    lemma FreeSize()
      requires list.Valid()
      ensures Total(list.abs.runs) == |list.Free()| && Normal(list.abs.runs) && list.Free() == FreeList.Pages(list.abs.runs)
    {
      TotalCounts(list.abs.runs);
    }

    /** No page is lost. */
    lemma NothingLost()
      requires Valid()
      ensures |dir.abs.owned| == SHIFT + used + guarded + Total(list.abs.runs)
    {
      hide WellOwned, TagsAgree;
      Conserved(dir.abs.owned, list.abs.runs, blocks, g, used, guarded);
    }
  }

  lemma Made(owned': set<nat>, owned: set<nat>, tags: map<nat, Tag>, free: set<nat>, free': set<nat>, b: Blocks, p: nat, n: nat, g: nat, used: nat, guarded: nat, mapped: bool)
    requires WellOwned(b, g) && TagsAgree(tags, free, b) && Partition(owned, free, b) && 0 < n && SHIFT <= p
    requires g <= 1 && Counted(b, g, used, guarded)
    requires if mapped then Range(p, p + n + g) !! owned && owned' == owned + Range(p, p + n + g) && free' == free
             else Range(p, p + n + g) <= free && owned' == owned && free' == free - Range(p, p + n + g)
    ensures var b' := WithBlock(b, p, n, g);
            WellOwned(b', g) && TagsAgree(WithRun(tags, p, n, p + n + g), free', b') && Partition(owned', free', b')
    ensures p !in b.live && Range(p, p + n + g) <= owned'
    ensures Counted(WithBlock(b, p, n, g), g, used + n, guarded + g)
  {
    hide WellOwned, TagsAgree, Range, Counted, WithBlock, WithRun;
    ClearOfBlocks(owned, free, b, p, n + g, mapped);
    BlockMadeOwned(b, p, n, g);
    BlockMadeTags(tags, free, free', b, p, n, g);
    hide TagsAgree;
    PartitionMade(owned, free, b, p, n, g);
    CountMade(b, p, n, g, used, guarded);
  }

  /** What `free_pages` relies on when it takes back block s, and what it leaves. */
  lemma Unmade(owned: set<nat>, tags: map<nat, Tag>, free: set<nat>, b: Blocks, s: nat, g: nat, used: nat, guarded: nat)
    requires WellOwned(b, g) && TagsAgree(tags, free, b) && Partition(owned, free, b) && g <= 1 && Counted(b, g, used, guarded)
    requires s in b.live && TagOf(tags, s) == First
    ensures var n := b.live[s]; var r := Range(s, s + n + g); var b' := WithoutBlock(b, s, n, g);
            && RunAt(tags, s, n) && r <= owned && SHIFT <= s && 0 < n && r !! free
            && WellOwned(b', g) && TagsAgree(WithFree(tags, s, s + n + g), free + r, b') && Partition(owned, free + r, b')
    ensures b.live[s] <= used && g <= guarded && Counted(WithoutBlock(b, s, b.live[s], g), g, used - b.live[s], guarded - g)
  {
    hide Range, Counted, WithoutBlock, WithFree, RunAt, WellOwned, TagsAgree, TagOf, Partition;
    var n := b.live[s];
    RunKnown(owned, tags, free, b, s, g);
    BlockFreedOwned(b, s, g);
    BlockFreedTags(tags, free, b, s, g);
    PartitionFreed(owned, free, b, s, n, g);
    CountFreed(b, s, g, used, guarded);
  }

  lemma RunKnown(owned: set<nat>, tags: map<nat, Tag>, free: set<nat>, b: Blocks, s: nat, g: nat)
    requires WellOwned(b, g) && TagsAgree(tags, free, b) && Partition(owned, free, b) && s in b.live && TagOf(tags, s) == First
    ensures var n := b.live[s]; var r := Range(s, s + n + g);
            RunAt(tags, s, n) && r <= owned && r <= b.owner.Keys && SHIFT <= s && 0 < n
  {
    hide Range, RunAt, WellOwned, TagsAgree, TagOf;
    BlockPages(b, g, s);
    RunIsBlock(tags, free, b, g, s);
  }

  lemma FirstIn(s: nat, m: nat)
    requires 0 < m
    ensures s in Range(s, s + m)
  {
  }

  lemma KeepFront(free: set<nat>, lo: nat, mid: nat, hi: nat)
    requires lo <= mid <= hi && Range(lo, hi) <= free
    ensures free - Range(lo, hi) + Range(lo, mid) == free - Range(mid, hi)
    ensures Range(mid, hi) <= free
    ensures Range(lo, lo) == {}
  {
  }

  lemma Retagged(owned: set<nat>, tags: map<nat, Tag>, free: set<nat>, b: Blocks, g: nat, index: nat, tag: Tag)
    requires WellOwned(b, g) && TagsAgree(tags, free, b) && Partition(owned, free, b)
    requires index in b.live && b.live[index] == 1 && (tag == First || tag.Info?)
    ensures TagsAgree(tags[index := tag], free, b) && index in owned && SHIFT <= index
  {
    assert Owns(b, g, index);
    assert index in b.owner && b.owner[index] == index;
    var tags' := tags[index := tag];
    assert tags'.Keys == free + b.owner.Keys;
    hide WellOwned, Range;
    forall i | i in b.owner && b.owner[i] in b.live
      ensures BlockTag(TagOf(tags', i), b.owner[i], b.live[b.owner[i]], i)
    {
      assert i != index ==> TagOf(tags', i) == TagOf(tags, i);
    }
    forall i | i in free
      ensures TagOf(tags', i) == Free
    {
      assert TagOf(tags', i) == TagOf(tags, i);
    }
  }

  /** The pages [lo, hi) of the free list are given back to the system. */
  lemma Given(owned: set<nat>, tags: map<nat, Tag>, free: set<nat>, b: Blocks, lo: nat, hi: nat)
    requires TagsAgree(tags, free, b) && Partition(owned, free, b) && Range(lo, hi) <= free
    ensures Range(lo, hi) <= owned && TagsAgree(Untagged(tags, lo, hi), free - Range(lo, hi), b)
    ensures Partition(Without(owned, lo, hi), free - Range(lo, hi), b)
    ensures free - Range(lo, hi) <= Without(owned, lo, hi)
  {
    hide Range;
    UnmappedTags(tags, free, b, lo, hi);
    hide TagsAgree;
    PartitionUnmapped(owned, free, b, lo, hi);
  }

  lemma ClearOfBlocks(owned: set<nat>, free: set<nat>, b: Blocks, p: nat, m: nat, mapped: bool)
    requires Partition(owned, free, b) && if mapped then Range(p, p + m) !! owned else Range(p, p + m) <= free
    ensures b.owner.Keys !! Range(p, p + m) && (mapped ==> free - Range(p, p + m) == free)
  {
    hide Range;
  }
}
