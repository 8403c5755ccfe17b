/** The sparse page directory of src/ext/OpenBSD_malloc_Linux.c.

    Pages are named by their index, `ptr2index` of their address.  A directory page holds
    the slots of SLOTS consecutive indices; the directory pages form a list. */
module PageDirectory {

  /** `pdi_mod`: how many slots fit in a directory page before its `struct pdinfo`. */
  const SLOTS: nat := 508
  /** `malloc_pagesize / sizeof(struct pginfo *)` */
  const PER_PAGE: nat := 512
  /** `malloc_pageshift`: the first indices of the directory are no pages, but buckets. */
  const SHIFT: nat := 12

  /** What a slot says about its page.  `Info` is a pointer to a `struct pginfo`, which the
      page allocator does not look into. */
  datatype Tag = NotMine | Free | First | Follow | Info(id: nat)

  function PiIdx(index: nat): nat { index / SLOTS }
  function PiOff(index: nat): (r: nat) ensures r < SLOTS { index % SLOTS }
  function PdIdx(dirnum: nat): nat { dirnum / PER_PAGE }
  function PdOff(dirnum: nat): (r: nat) ensures r < PER_PAGE { dirnum % PER_PAGE }

  lemma Split(idx: nat, off: nat)
    requires off < SLOTS
    ensures PiIdx(idx * SLOTS + off) == idx && PiOff(idx * SLOTS + off) == off
  {
  }

  lemma Join(index: nat)
    ensures PiIdx(index) * SLOTS + PiOff(index) == index
  {
  }

  lemma InOrder(i: nat, j: nat)
    requires i <= j
    ensures PiIdx(i) <= PiIdx(j)
  {
  }

  lemma Unpack(idx: nat, count: nat)
    requires count < PER_PAGE
    ensures PdIdx(idx * PER_PAGE + count) == idx && PdOff(idx * PER_PAGE + count) == count
  {
  }

  /** The slots of a fresh directory page. */
  function NoTags(): (base: seq<Tag>)
    ensures |base| == SLOTS
  {
    seq(SLOTS, _ => NotMine)
  }

  /** A directory page together with its `struct pdinfo`. */
  class PdInfo {
    ghost const idx: nat  // the directory index, which `dirnum` packs with a count
    var base: seq<Tag>
    var prev: PdInfo?
    var next: PdInfo?
    var dirnum: nat

    constructor (idx: nat)
      ensures this.idx == idx && dirnum == idx * PER_PAGE
      ensures base == NoTags() && prev == null && next == null
    {
      this.idx := idx;
      base, prev, next, dirnum := NoTags(), null, null, idx * PER_PAGE;
    }
  }

  ghost function At(dirs: seq<PdInfo>, k: int): PdInfo? {
    if 0 <= k < |dirs| then dirs[k] else null
  }

  ghost predicate Sorted(dirs: seq<PdInfo>) {
    forall i, j {:trigger dirs[i].idx, dirs[j].idx} :: 0 <= i < j < |dirs| ==> dirs[i].idx < dirs[j].idx
  }

  ghost predicate HasDir(dirs: seq<PdInfo>, idx: nat) {
    exists k :: 0 <= k < |dirs| && dirs[k].idx == idx
  }

  /** Position k holds the greatest index that is not above `pidx`; it is the first
      position when there is none. */
  ghost predicate Nearest(dirs: seq<PdInfo>, pidx: nat, k: int) {
    && 0 <= k < |dirs|
    && (dirs[k].idx <= pidx || k == 0)
    && (k + 1 < |dirs| ==> pidx < dirs[k + 1].idx)
  }

  lemma NearestDecides(dirs: seq<PdInfo>, pidx: nat, k: int)
    requires Sorted(dirs) && Nearest(dirs, pidx, k)
    ensures HasDir(dirs, pidx) <==> dirs[k].idx == pidx
    ensures pidx < dirs[0].idx <==> pidx < dirs[k].idx
  {
    if HasDir(dirs, pidx) {
      var j :| 0 <= j < |dirs| && dirs[j].idx == pidx;
    }
  }

  /** The position that `pdir_lookup` finds. */
  ghost function NearestTo(dirs: seq<PdInfo>, pidx: nat): (k: nat)
    ensures 0 < |dirs| && Sorted(dirs) ==> Nearest(dirs, pidx, k)
    ensures 0 < |dirs| ==> k < |dirs|
  {
    if |dirs| <= 1 then 0
    else if dirs[|dirs| - 1].idx <= pidx then |dirs| - 1
    else NearestTo(dirs[..|dirs| - 1], pidx)
  }

  lemma NearestIsOne(dirs: seq<PdInfo>, pidx: nat, k: int)
    requires Sorted(dirs) && Nearest(dirs, pidx, k)
    ensures k == NearestTo(dirs, pidx)
  {
    assert Nearest(dirs, pidx, NearestTo(dirs, pidx));
  }

  /** The index whose slot `ifree` looks at for `index`: it reads the nearest directory page,
      whether that is the right one or not. */
  ghost function ReadAt(dirs: seq<PdInfo>, index: nat): nat {
    if dirs == [] then index else dirs[NearestTo(dirs, PiIdx(index))].idx * SLOTS + PiOff(index)
  }

  /** It is the slot of `index` itself exactly if there is a directory page for it. */
  lemma ReadsOwn(dirs: seq<PdInfo>, index: nat)
    requires Sorted(dirs) && 0 < |dirs|
    ensures ReadAt(dirs, index) == index <==> HasDir(dirs, PiIdx(index))
  {
    var k := NearestTo(dirs, PiIdx(index));
    NearestDecides(dirs, PiIdx(index), k);
    Join(index);
    Split(dirs[k].idx, PiOff(index));
  }

  /** Which of two hints `pdir_lookup` starts from, when neither is the wanted node.  The
      conditional operators are nested as C parses them. */
  function StartsAtLast(last: nat, prev: nat, pidx: nat): bool {
    if last > pidx then last - pidx != 0
    else if pidx - last < (if prev > pidx then 1 else 0) then prev - pidx != 0
    else pidx - prev != 0
  }

  /** The comparison of the two distances has no effect: the most recent hint always wins. */
  lemma AlwaysStartsAtLast(last: nat, prev: nat, pidx: nat)
    requires last != pidx && prev != pidx
    ensures StartsAtLast(last, prev, pidx)
  {
  }

  ghost predicate Linked(dirs: seq<PdInfo>)
    reads dirs`next, dirs`prev
  {
    && (forall k {:trigger dirs[k].next} :: 0 <= k < |dirs| ==> dirs[k].next == At(dirs, k + 1))
    && (forall k {:trigger dirs[k].prev} :: 0 <= k < |dirs| ==> dirs[k].prev == At(dirs, k - 1))
  }

  /** The linked list of directory pages. */
  ghost predicate Chained(dirs: seq<PdInfo>)
    reads dirs`next, dirs`prev, dirs`dirnum
  {
    && Linked(dirs)
    && (forall k {:trigger dirs[k].dirnum} :: 0 <= k < |dirs| ==> PdIdx(dirs[k].dirnum) == dirs[k].idx)
    && Sorted(dirs)
  }

  /** `pdir_lookup`, for any hints. */
  method Lookup(head: PdInfo, lastDir: PdInfo?, prevDir: PdInfo?, pidx: nat, ghost dirs: seq<PdInfo>)
    returns (pi: PdInfo, code: int, ghost k: int)
    requires Chained(dirs) && 0 < |dirs| && head == dirs[0]
    requires (lastDir != null ==> lastDir in dirs) && (prevDir != null ==> prevDir in dirs)
    ensures Nearest(dirs, pidx, k) && pi == dirs[k]
    ensures code == 0 <==> HasDir(dirs, pidx)
    ensures code == 1 <==> pidx < dirs[0].idx
    ensures -1 <= code <= 1
  {
    hide StartsAtLast, HasDir, PdIdx;
    if lastDir != null && PdIdx(lastDir.dirnum) == pidx {
      pi := lastDir;
      k :| 0 <= k < |dirs| && dirs[k] == lastDir;
    } else if prevDir != null && PdIdx(prevDir.dirnum) == pidx {
      pi := prevDir;
      k :| 0 <= k < |dirs| && dirs[k] == prevDir;
    } else if lastDir != null && prevDir != null {
      pi := if StartsAtLast(PdIdx(lastDir.dirnum), PdIdx(prevDir.dirnum), pidx) then lastDir else prevDir;
      k :| 0 <= k < |dirs| && dirs[k] == pi;
      if PdIdx(pi.dirnum) > pidx {
        pi, k := Backward(pi, pidx, dirs, k);
      } else {
        pi, k := Forward(pi, pi.next, pidx, dirs, k, k + 1);
      }
    } else {
      pi, k := Forward(head, head, pidx, dirs, 0, 0);
    }
    var found := PdIdx(pi.dirnum);
    code := if found == pidx then 0 else if found > pidx then 1 else -1;
    NearestDecides(dirs, pidx, k);
  }

  /** The loops of `pdir_lookup` that go up the list, as long as the next index is not too large. */
  method Forward(start: PdInfo, first: PdInfo?, pidx: nat, ghost dirs: seq<PdInfo>, ghost s: int, ghost f: int)
    returns (pi: PdInfo, ghost k: int)
    requires Chained(dirs) && 0 <= s < |dirs| && start == dirs[s]
    requires first == At(dirs, f) && ((f == s == 0) || (f == s + 1 && dirs[s].idx <= pidx))
    ensures Nearest(dirs, pidx, k) && pi == dirs[k]
  {
    pi, k := start, s;
    var spi := first;
    ghost var j := f;
    while spi != null && PdIdx(spi.dirnum) <= pidx
      invariant 0 <= k < |dirs| && pi == dirs[k] && spi == At(dirs, j)
      invariant (j == k == 0) || (j == k + 1 && dirs[k].idx <= pidx)
      decreases |dirs| - j
    {
      pi, k := spi, j;
      spi := spi.next;
      j := j + 1;
    }
  }

  /** The loop of `pdir_lookup` that goes down the list, and the step after it. */
  method Backward(start: PdInfo, pidx: nat, ghost dirs: seq<PdInfo>, ghost s: int)
    returns (pi: PdInfo, ghost k: int)
    requires Chained(dirs) && 0 <= s < |dirs| && start == dirs[s] && pidx < dirs[s].idx
    ensures Nearest(dirs, pidx, k) && pi == dirs[k]
  {
    pi, k := start, s;
    var spi := pi.prev;
    while spi != null && PdIdx(spi.dirnum) > pidx
      invariant 0 <= k < |dirs| && pi == dirs[k] && spi == At(dirs, k - 1) && pidx < dirs[k].idx
      decreases k
    {
      pi, k := spi, k - 1;
      spi := spi.prev;
    }
    if spi != null {
      pi, k := spi, k - 1;
    }
  }

  // ----- counting owned slots

  ghost function Range(lo: nat, hi: nat): (r: set<nat>)
    ensures forall i {:trigger i in r} :: i in r <==> lo <= i < hi
  {
    if hi <= lo then {} else Range(lo, hi - 1) + {hi - 1}
  }

  lemma {:induction false} RangeSize(lo: nat, hi: nat)
    requires lo <= hi
    ensures |Range(lo, hi)| == hi - lo
  {
    if lo < hi {
      RangeSize(lo, hi - 1);
    }
  }

  /** How many of the n indices from lo on are in `owned`. */
  ghost function CountIn(owned: set<nat>, lo: nat, n: nat): (c: nat)
    ensures c <= n
  {
    if n == 0 then 0 else CountIn(owned, lo, n - 1) + (if lo + n - 1 in owned then 1 else 0)
  }

  /** How many slots of directory page `idx` are owned. */
  ghost function Count(owned: set<nat>, idx: nat): (c: nat)
    ensures c <= SLOTS
  {
    CountIn(owned, idx * SLOTS, SLOTS)
  }

  lemma {:induction false} CountInAgrees(s: set<nat>, t: set<nat>, lo: nat, n: nat)
    requires forall i :: lo <= i < lo + n ==> (i in s <==> i in t)
    ensures CountIn(s, lo, n) == CountIn(t, lo, n)
  {
    if n != 0 {
      CountInAgrees(s, t, lo, n - 1);
    }
  }

  lemma {:induction false} CountInAdd(s: set<nat>, lo: nat, n: nat, a: nat, b: nat)
    requires lo <= a <= b <= lo + n && s !! Range(a, b)
    ensures CountIn(s + Range(a, b), lo, n) == CountIn(s, lo, n) + (b - a)
  {
    if n != 0 {
      if a == b {
        CountInAgrees(s, s + Range(a, b), lo, n);
      } else if b == lo + n {
        CountInAdd(s, lo, n - 1, a, b - 1);
        CountInAgrees(s + Range(a, b), s + Range(a, b - 1), lo, n - 1);
        assert b - 1 in Range(a, b);
      } else {
        CountInAdd(s, lo, n - 1, a, b);
      }
    }
  }

  /** Some slot is owned where the count is positive, and the other way round. */
  lemma {:induction false} CountInPositive(s: set<nat>, lo: nat, n: nat, i: nat)
    requires lo <= i < lo + n && i in s
    ensures 0 < CountIn(s, lo, n)
  {
    if i < lo + n - 1 {
      CountInPositive(s, lo, n - 1, i);
    }
  }

  lemma {:induction false} CountInZero(s: set<nat>, lo: nat, n: nat)
    requires forall i :: lo <= i < lo + n ==> i !in s
    ensures CountIn(s, lo, n) == 0
  {
    if n != 0 {
      CountInZero(s, lo, n - 1);
    }
  }

  lemma CountAdd(owned: set<nat>, idx: nat, a: nat, b: nat)
    requires idx * SLOTS <= a <= b <= (idx + 1) * SLOTS && owned !! Range(a, b)
    ensures Count(owned + Range(a, b), idx) == Count(owned, idx) + (b - a)
    ensures forall j :: j != idx ==> Count(owned + Range(a, b), j) == Count(owned, j)
  {
    CountInAdd(owned, idx * SLOTS, SLOTS, a, b);
    forall j: nat | j != idx
      ensures Count(owned + Range(a, b), j) == Count(owned, j)
    {
      CountInAgrees(owned + Range(a, b), owned, j * SLOTS, SLOTS);
    }
  }

  lemma CountRemove(owned: set<nat>, i: nat)
    requires i in owned
    ensures Count(owned - {i}, PiIdx(i)) == Count(owned, PiIdx(i)) - 1
    ensures forall j :: j != PiIdx(i) ==> Count(owned - {i}, j) == Count(owned, j)
  {
    Join(i);
    var rest := owned - {i};
    assert owned == rest + Range(i, i + 1);
    CountAdd(rest, PiIdx(i), i, i + 1);
  }

  // ----- the contents of a directory page

  ghost function TagOf(tags: map<nat, Tag>, i: nat): Tag {
    if i in tags then tags[i] else NotMine
  }

  /** The slots of directory page `idx`. */
  ghost function Slots(tags: map<nat, Tag>, idx: nat): (base: seq<Tag>)
    ensures |base| == SLOTS
    ensures forall o {:trigger base[o]} :: 0 <= o < SLOTS ==> base[o] == TagOf(tags, idx * SLOTS + o)
  {
    seq(SLOTS, o requires 0 <= o => TagOf(tags, idx * SLOTS + o))
  }

  lemma SlotsAfterWrite(tags: map<nat, Tag>, tags': map<nat, Tag>, i: nat)
    requires forall j :: j != i ==> TagOf(tags', j) == TagOf(tags, j)
    ensures Slots(tags', PiIdx(i)) == Slots(tags, PiIdx(i))[PiOff(i) := TagOf(tags', i)]
    ensures forall idx :: idx != PiIdx(i) ==> Slots(tags', idx) == Slots(tags, idx)
  {
    Join(i);
    forall idx: nat | idx != PiIdx(i)
      ensures Slots(tags', idx) == Slots(tags, idx)
    {
      forall o | 0 <= o < SLOTS
        ensures Slots(tags', idx)[o] == Slots(tags, idx)[o]
      {
        Split(idx, o);
      }
    }
  }

  // ----- the directory

  /** `dirnum` packs the index with the number of owned slots. */
  ghost predicate Packed(dirs: seq<PdInfo>, owned: set<nat>)
    reads dirs`dirnum
  {
    forall k {:trigger dirs[k].dirnum} :: 0 <= k < |dirs| ==> dirs[k].dirnum == dirs[k].idx * PER_PAGE + Count(owned, dirs[k].idx)
  }

  ghost predicate Stores(dirs: seq<PdInfo>, tags: map<nat, Tag>)
    reads dirs`base
  {
    forall k {:trigger dirs[k].base} :: 0 <= k < |dirs| ==> dirs[k].base == Slots(tags, dirs[k].idx)
  }

  /** Every owned index has a directory page, and only the head may hold none of them. */
  ghost predicate Needed(dirs: seq<PdInfo>, owned: set<nat>) {
    && (forall i {:trigger PiIdx(i)} {:trigger i in owned} :: i in owned ==> HasDir(dirs, PiIdx(i)))
    && (forall k {:trigger dirs[k].idx} :: 0 < k < |dirs| ==> 0 < Count(owned, dirs[k].idx))
  }

  /** As Needed, but directory page `idx` may hold nothing. */
  ghost predicate NeededBut(dirs: seq<PdInfo>, owned: set<nat>, idx: nat) {
    && (forall i {:trigger PiIdx(i)} {:trigger i in owned} :: i in owned ==> HasDir(dirs, PiIdx(i)))
    && (forall k {:trigger dirs[k].idx} :: 0 < k < |dirs| && dirs[k].idx != idx ==> 0 < Count(owned, dirs[k].idx))
  }

  /** What the directory stands for: its pages in list order, the indices whose pages the
      allocator owns (with the bucket slots), and the tag of every tagged index. */
  datatype Abstract = Abstract(dirs: seq<PdInfo>, owned: set<nat>, tags: map<nat, Tag>)

  ghost predicate Consistent(a: Abstract) {
    && 0 < |a.dirs| && a.dirs[0].idx == 0
    && (forall i {:trigger i in a.owned} :: 0 <= i < SHIFT ==> i in a.owned)
    && (forall i :: i in a.tags ==> i in a.owned && SHIFT <= i && a.tags[i] != NotMine)
  }

  lemma OnlyAt(dirs: seq<PdInfo>, k: int)
    requires Sorted(dirs) && 0 <= k < |dirs|
    ensures forall i {:trigger dirs[i]} :: 0 <= i < |dirs| && dirs[i] == dirs[k] ==> i == k
  {
    forall i | 0 <= i < |dirs| && dirs[i] == dirs[k]
      ensures i == k
    {
      assert dirs[i].idx == dirs[k].idx;
    }
  }

  lemma SortedInsert(dirs: seq<PdInfo>, k: int, pi: PdInfo)
    requires Sorted(dirs) && 0 <= k < |dirs| && dirs[k].idx < pi.idx
    requires k + 1 < |dirs| ==> pi.idx < dirs[k + 1].idx
    ensures Sorted(dirs[..k + 1] + [pi] + dirs[k + 1..])
  {
  }

  lemma SortedRemove(dirs: seq<PdInfo>, k: int)
    requires Sorted(dirs) && 0 <= k < |dirs|
    ensures Sorted(dirs[..k] + dirs[k + 1..])
  {
  }

  /** Links a fresh node for directory page `idx` behind `spi`. */
  method InsertAfter(spi: PdInfo, idx: nat, ghost dirs: seq<PdInfo>, ghost k: nat)
    returns (pi: PdInfo, ghost dirs': seq<PdInfo>)
    requires Chained(dirs) && k < |dirs| && spi == dirs[k] && spi.idx < idx
    requires k + 1 < |dirs| ==> idx < dirs[k + 1].idx
    modifies dirs`next, dirs`prev
    ensures fresh(pi) && pi.idx == idx && pi.dirnum == idx * PER_PAGE && pi.base == NoTags()
    ensures dirs' == dirs[..k + 1] + [pi] + dirs[k + 1..]
    ensures Chained(dirs')
  {
    pi := new PdInfo(idx);
    SortedInsert(dirs, k, pi);
    Unpack(idx, 0);
    dirs' := dirs[..k + 1] + [pi] + dirs[k + 1..];
    Splice(spi, pi, dirs, k);
  }

  method Splice(spi: PdInfo, pi: PdInfo, ghost dirs: seq<PdInfo>, ghost k: nat)
    requires Chained(dirs) && k < |dirs| && spi == dirs[k] && pi !in dirs
    modifies dirs`next, dirs`prev, pi`next, pi`prev
    ensures Linked(dirs[..k + 1] + [pi] + dirs[k + 1..])
  {
    OnlyAt(dirs, k);
    if k + 1 < |dirs| {
      OnlyAt(dirs, k + 1);
    }
    hide Sorted, PdIdx;
    pi.prev := spi;
    pi.next := spi.next;
    if spi.next != null {
      spi.next.prev := pi;
    }
    spi.next := pi;
  }

  /** Takes `pi` out of the list. */
  method Unlink(pi: PdInfo, ghost dirs: seq<PdInfo>, ghost k: nat)
    returns (ghost dirs': seq<PdInfo>)
    requires Chained(dirs) && 0 < k < |dirs| && pi == dirs[k]
    modifies dirs`next, dirs`prev
    ensures dirs' == dirs[..k] + dirs[k + 1..] && pi.next == old(pi.next) && pi.prev == old(pi.prev)
    ensures Chained(dirs')
  {
    SortedRemove(dirs, k);
    dirs' := dirs[..k] + dirs[k + 1..];
    Cut(pi, dirs, k);
  }

  /** Where the others are once position k is gone. */
  lemma SkipDir(dirs: seq<PdInfo>, k: nat)
    requires k < |dirs|
    ensures var dirs' := dirs[..k] + dirs[k + 1..];
            && (forall i {:trigger dirs'[i]} :: 0 <= i < |dirs'| ==> dirs'[i] == if i < k then dirs[i] else dirs[i + 1])
            && (forall i {:trigger At(dirs', i)} :: At(dirs', i) == if i < k then At(dirs, i) else At(dirs, i + 1))
  {
  }

  lemma NextTo(dirs: seq<PdInfo>, k: nat)
    requires k < |dirs|
    ensures At(dirs, k + 1) == (if k + 1 < |dirs| then dirs[k + 1] else null) && At(dirs, k - 1) == (if 0 < k then dirs[k - 1] else null)
  {
  }

  method Cut(pi: PdInfo, ghost dirs: seq<PdInfo>, ghost k: nat)
    requires Chained(dirs) && 0 < k < |dirs| && pi == dirs[k]
    modifies dirs`next, dirs`prev
    ensures Linked(dirs[..k] + dirs[k + 1..]) && pi.next == old(pi.next) && pi.prev == old(pi.prev)
  {
    OnlyAt(dirs, k - 1);
    if k + 1 < |dirs| {
      OnlyAt(dirs, k + 1);
    }
    assert pi != dirs[k - 1] && (k + 1 < |dirs| ==> pi != dirs[k + 1]);
    SkipDir(dirs, k);
    hide Sorted, PdIdx, At;
    NextTo(dirs, k);
    if pi.prev != null {
      pi.prev.next := pi.next;
    }
    if pi.next != null {
      pi.next.prev := pi.prev;
    }
  }

  // ----- map_pages

  /** The indices of directory page `idx` among [index, index + m). */
  function Lo(index: nat, idx: nat): nat {
    if idx * SLOTS < index then index else idx * SLOTS
  }

  function Hi(index: nat, m: nat, idx: nat): nat {
    if index + m < (idx + 1) * SLOTS then index + m else (idx + 1) * SLOTS
  }

  /** What `map_pages` adds to `dirnum` of directory page `idx`, in its three cases. */
  function ClaimStep(index: nat, m: nat, idx: nat): nat
    requires 0 < m
  {
    var pidx, lidx := PiIdx(index), PiIdx(index + m - 1);
    if pidx < idx && idx < lidx then SLOTS
    else if idx == pidx then
      (if pidx == lidx then m else SLOTS - PiOff(index))
    else PiOff(index + m - 1) + 1
  }

  lemma ClaimStepIsShare(index: nat, m: nat, idx: nat)
    requires 0 < m && PiIdx(index) <= idx <= PiIdx(index + m - 1)
    ensures index <= Lo(index, idx) < Hi(index, m, idx) <= index + m
    ensures idx * SLOTS <= Lo(index, idx) && Hi(index, m, idx) <= (idx + 1) * SLOTS
    ensures ClaimStep(index, m, idx) == Hi(index, m, idx) - Lo(index, idx)
    ensures idx == PiIdx(index) ==> Lo(index, idx) == index
    ensures PiIdx(index) < idx ==> Lo(index, idx) == Hi(index, m, idx - 1)
    ensures idx == PiIdx(index + m - 1) ==> Hi(index, m, idx) == index + m
  {
    Join(index);
    Join(index + m - 1);
  }

  lemma NothingThere(dirs: seq<PdInfo>, owned: set<nat>, tags: map<nat, Tag>, idx: nat)
    requires Needed(dirs, owned) && tags.Keys <= owned && !HasDir(dirs, idx)
    ensures Count(owned, idx) == 0 && Slots(tags, idx) == NoTags()
  {
    forall i | i in owned
      ensures !(idx * SLOTS <= i < idx * SLOTS + SLOTS)
    {
      assert HasDir(dirs, PiIdx(i));
    }
    CountInZero(owned, idx * SLOTS, SLOTS);
  }

  method InsertDir(spi: PdInfo, idx: nat, ghost dirs: seq<PdInfo>, ghost k: nat, ghost owned: set<nat>, ghost tags: map<nat, Tag>)
    returns (r: PdInfo, ghost dirs': seq<PdInfo>)
    requires Chained(dirs) && Packed(dirs, owned) && Stores(dirs, tags) && Needed(dirs, owned) && tags.Keys <= owned
    requires k < |dirs| && spi == dirs[k] && spi.idx < idx && (k + 1 < |dirs| ==> idx < dirs[k + 1].idx)
    modifies dirs`next, dirs`prev
    ensures Chained(dirs') && Packed(dirs', owned) && Stores(dirs', tags)
    ensures dirs' == dirs[..k + 1] + [r] + dirs[k + 1..] && fresh(r) && r.idx == idx && !HasDir(dirs, idx)
  {
    hide Count, Slots, NoTags, Packed, Stores, Linked, PdIdx, HasDir, Needed;
    NearestDecides(dirs, idx, k);
    NothingThere(dirs, owned, tags, idx);
    hide Chained;
    r, dirs' := InsertAfter(spi, idx, dirs, k);
    WithFresh(dirs, k + 1, r, owned, tags);
  }

  /** A directory page without owned slots, among the others. */
  lemma WithFresh(dirs: seq<PdInfo>, k: nat, r: PdInfo, owned: set<nat>, tags: map<nat, Tag>)
    requires Packed(dirs, owned) && Stores(dirs, tags) && k <= |dirs|
    requires r.dirnum == r.idx * PER_PAGE && r.base == NoTags() && Count(owned, r.idx) == 0 && Slots(tags, r.idx) == NoTags()
    ensures var dirs' := dirs[..k] + [r] + dirs[k..]; Packed(dirs', owned) && Stores(dirs', tags)
  {
    hide Count, Slots, NoTags;
    var dirs' := dirs[..k] + [r] + dirs[k..];
    assert forall j {:trigger dirs'[j]} :: 0 <= j < |dirs'| ==> dirs'[j] == if j < k then dirs[j] else if j == k then r else dirs[j - 1];
  }

  /** The start of a turn of the loop in `map_pages`: find or insert directory page `idx`. */
  method EnsureDir(pi: PdInfo?, spi: PdInfo, idx: nat, ghost dirs: seq<PdInfo>, ghost k: nat, ghost owned: set<nat>, ghost tags: map<nat, Tag>)
    returns (r: PdInfo, ghost dirs': seq<PdInfo>, ghost k': nat, added: nat)
    requires Chained(dirs) && Packed(dirs, owned) && Stores(dirs, tags) && Needed(dirs, owned) && tags.Keys <= owned
    requires k < |dirs| && spi == dirs[k]
    requires if pi == spi then Nearest(dirs, idx, k) && spi.idx <= idx
             else pi == At(dirs, k + 1) && spi.idx < idx && (k + 1 < |dirs| ==> idx <= dirs[k + 1].idx)
    modifies dirs`next, dirs`prev
    ensures Chained(dirs') && Packed(dirs', owned) && Stores(dirs', tags)
    ensures k' < |dirs'| && r == dirs'[k'] && r.idx == idx
    ensures if added == 0 then dirs' == dirs else added == 1 && fresh(r) && dirs' == dirs[..k + 1] + [r] + dirs[k + 1..] && !HasDir(dirs, idx)
  {
    if pi == null || PdIdx(pi.dirnum) != idx {
      r, dirs' := InsertDir(spi, idx, dirs, k, owned, tags);
      k', added := k + 1, 1;
    } else {
      r, dirs', added := pi, dirs, 0;
      k' := if pi == spi then k else k + 1;
    }
  }

  lemma StillNeeded(dirs: seq<PdInfo>, dirs': seq<PdInfo>, owned: set<nat>, idx: nat, k: nat, lo: nat, hi: nat)
    requires Needed(dirs, owned) && k < |dirs'| && dirs'[k].idx == idx
    requires forall d :: d in dirs ==> d in dirs'
    requires forall j :: 0 < j < |dirs'| && j != k ==> exists i :: 0 < i < |dirs| && dirs[i].idx == dirs'[j].idx
    requires idx * SLOTS <= lo < hi <= (idx + 1) * SLOTS && owned !! Range(lo, hi)
    ensures Needed(dirs', owned + Range(lo, hi))
  {
    CountAdd(owned, idx, lo, hi);
    forall i | i in owned + Range(lo, hi)
      ensures HasDir(dirs', PiIdx(i))
    {
      if i in owned {
        var j :| 0 <= j < |dirs| && dirs[j].idx == PiIdx(i);
        assert dirs[j] in dirs';
      }
    }
  }

  /** A turn of the loop in `map_pages`. */
  method ClaimDir(pi: PdInfo?, spi: PdInfo, index: nat, m: nat, idx: nat, ghost dirs: seq<PdInfo>, ghost k: nat, ghost owned: set<nat>, ghost tags: map<nat, Tag>)
    returns (r: PdInfo, ghost dirs': seq<PdInfo>, ghost k': nat, added: nat)
    requires Chained(dirs) && Packed(dirs, owned) && Stores(dirs, tags) && Needed(dirs, owned) && tags.Keys <= owned
    requires k < |dirs| && spi == dirs[k]
    requires if pi == spi then Nearest(dirs, idx, k) && spi.idx <= idx
             else pi == At(dirs, k + 1) && spi.idx < idx && (k + 1 < |dirs| ==> idx <= dirs[k + 1].idx)
    requires 0 < m && PiIdx(index) <= idx <= PiIdx(index + m - 1)
    requires owned !! Range(Lo(index, idx), Hi(index, m, idx))
    modifies dirs`next, dirs`prev, dirs`dirnum
    ensures var owned' := owned + Range(Lo(index, idx), Hi(index, m, idx));
            Chained(dirs') && Packed(dirs', owned') && Stores(dirs', tags) && Needed(dirs', owned')
    ensures k' < |dirs'| && r == dirs'[k'] && r.idx == idx
    ensures if added == 0 then dirs' == dirs else added == 1 && fresh(r) && dirs' == dirs[..k + 1] + [r] + dirs[k + 1..] && !HasDir(dirs, idx)
  {
    hide Count, Slots, HasDir;
    r, dirs', k', added := EnsureDir(pi, spi, idx, dirs, k, owned, tags);
    ClaimStepIsShare(index, m, idx);
    var c := ClaimStep(index, m, idx);
    ghost var lo, hi := Lo(index, idx), Hi(index, m, idx);
    StillNeeded(dirs, dirs', owned, idx, k', lo, hi);
    hide Needed, Chained, Packed, Stores, ClaimStep, Lo, Hi, PiIdx;
    AddTo(r, c, dirs', k', owned, tags, lo, hi);
  }

  /** Counts the c slots [lo, hi) as owned. */
  method AddTo(pi: PdInfo, c: nat, ghost dirs: seq<PdInfo>, ghost k: nat, ghost owned: set<nat>, ghost tags: map<nat, Tag>, ghost lo: nat, ghost hi: nat)
    requires Chained(dirs) && Packed(dirs, owned) && Stores(dirs, tags) && k < |dirs| && pi == dirs[k]
    requires pi.idx * SLOTS <= lo <= hi <= (pi.idx + 1) * SLOTS && owned !! Range(lo, hi) && c == hi - lo
    modifies pi`dirnum
    ensures Chained(dirs) && Packed(dirs, owned + Range(lo, hi)) && Stores(dirs, tags)
  {
    CountAdd(owned, pi.idx, lo, hi);
    OnlyAt(dirs, k);
    Unpack(pi.idx, Count(owned + Range(lo, hi), pi.idx));
    hide Count, Sorted, Slots;
    pi.dirnum := pi.dirnum + c;
    assert PdIdx(pi.dirnum) == pi.idx && PdOff(pi.dirnum) <= SLOTS;  // the "pages directory overflow" check
  }

  /** Writes the slot of index i, where alone `tags'` differs from `tags`. */
  method PutSlot(pi: PdInfo, i: nat, tag: Tag, ghost dirs: seq<PdInfo>, ghost k: nat, ghost tags: map<nat, Tag>, ghost tags': map<nat, Tag>)
    requires Sorted(dirs) && Stores(dirs, tags) && k < |dirs| && pi == dirs[k] && pi.idx == PiIdx(i)
    requires TagOf(tags', i) == tag && forall j :: j != i ==> TagOf(tags', j) == TagOf(tags, j)
    modifies pi`base
    ensures Stores(dirs, tags')
  {
    SlotsAfterWrite(tags, tags', i);
    assert forall j {:trigger dirs[j]} :: 0 <= j < |dirs| && j != k ==> dirs[j].idx != pi.idx;
    hide PiIdx, Slots, Sorted;
    pi.base := pi.base[PiOff(i) := tag];
  }

  // ----- the tags of a run of pages

  /** The tag that `malloc_pages` gives index i of a run of n pages: FIRST, then FOLLOW; the
      page after the run, if it is a guard page, is a FIRST again. */
  function RunTag(index: nat, n: nat, i: nat): Tag {
    if i == index || i == index + n then First else Follow
  }

  /** `tags` with the indices [index, hi) marked as part of the run. */
  ghost function WithRun(tags: map<nat, Tag>, index: nat, n: nat, hi: nat): map<nat, Tag> {
    tags + map i | i in Range(index, hi) :: RunTag(index, n, i)
  }

  /** `tags` with the indices [lo, hi) marked free. */
  ghost function WithFree(tags: map<nat, Tag>, lo: nat, hi: nat): map<nat, Tag> {
    tags + map i | i in Range(lo, hi) :: Free
  }

  lemma WithRunStep(tags: map<nat, Tag>, index: nat, n: nat, hi: nat)
    requires index <= hi
    ensures WithRun(tags, index, n, hi)[hi := RunTag(index, n, hi)] == WithRun(tags, index, n, hi + 1)
    ensures WithRun(tags, index, n, index) == tags
  {
  }

  lemma WithFreeStep(tags: map<nat, Tag>, lo: nat, hi: nat)
    requires lo <= hi
    ensures WithFree(tags, lo, hi)[hi := Free] == WithFree(tags, lo, hi + 1)
    ensures WithFree(tags, lo, lo) == tags
  {
  }

  lemma FreeTag(tags: map<nat, Tag>, lo: nat, hi: nat, i: nat)
    ensures TagOf(WithFree(tags, lo, hi), i) == if lo <= i < hi then Free else TagOf(tags, i)
  {
  }

  /** Index `index` starts a run of exactly n pages. */
  ghost predicate RunAt(tags: map<nat, Tag>, index: nat, n: nat) {
    && 0 < n && TagOf(tags, index) == First
    && (forall i {:trigger TagOf(tags, i)} :: index < i < index + n ==> TagOf(tags, i) == Follow)
    && TagOf(tags, index + n) != Follow
  }

  // ----- releasing pages

  /** Gives index i up: its slot and the count of its directory page. */
  method ClearSlot(pi: PdInfo, i: nat, ghost a: Abstract, ghost k: nat) returns (ghost a': Abstract)
    requires Chained(a.dirs) && Packed(a.dirs, a.owned) && Stores(a.dirs, a.tags)
    requires k < |a.dirs| && pi == a.dirs[k] && pi.idx == PiIdx(i) && i in a.owned
    modifies pi`base, pi`dirnum
    ensures a' == Abstract(a.dirs, a.owned - {i}, a.tags - {i})
    ensures Chained(a.dirs) && Packed(a.dirs, a'.owned) && Stores(a.dirs, a'.tags)
  {
    CountRemove(a.owned, i);
    Unpack(pi.idx, Count(a.owned, pi.idx));
    Unpack(pi.idx, Count(a.owned - {i}, pi.idx));
    OnlyAt(a.dirs, k);
    a' := Abstract(a.dirs, a.owned - {i}, a.tags - {i});
    PutSlot(pi, i, NotMine, a.dirs, k, a.tags, a'.tags);
    hide PiIdx, Stores, Count, Sorted;
    pi.dirnum := pi.dirnum - 1;
  }

  /** `pi` is not needed any more exactly if the count in `dirnum` is zero. */
  method DropIfEmpty(pi: PdInfo, ghost a: Abstract, ghost k: nat) returns (next: PdInfo?, ghost dirs': seq<PdInfo>, dropped: bool)
    requires Chained(a.dirs) && Packed(a.dirs, a.owned) && Stores(a.dirs, a.tags) && NeededBut(a.dirs, a.owned, pi.idx)
    requires Consistent(a) && k < |a.dirs| && pi == a.dirs[k]
    modifies a.dirs`next, a.dirs`prev
    ensures Chained(dirs') && Packed(dirs', a.owned) && Stores(dirs', a.tags) && Needed(dirs', a.owned)
    ensures dirs' == (if dropped then a.dirs[..k] + a.dirs[k + 1..] else a.dirs) && (dropped ==> 0 < k)
    ensures next == At(a.dirs, k + 1)
  {
    hide Slots, HasDir, Sorted;
    Unpack(pi.idx, Count(a.owned, pi.idx));
    dropped := PdOff(pi.dirnum) == 0;
    next := pi.next;
    if dropped {
      HeadStays(a, k);
      dirs' := Unlink(pi, a.dirs, k);
      NeededWithout(a.dirs, a.owned, k);
    } else {
      dirs' := a.dirs;
    }
  }

  lemma NextDecides(dirs: seq<PdInfo>, k: nat)
    requires Sorted(dirs) && k < |dirs|
    ensures HasDir(dirs, dirs[k].idx + 1) <==> k + 1 < |dirs| && dirs[k + 1].idx == dirs[k].idx + 1
    ensures var dirs' := dirs[..k] + dirs[k + 1..];
            HasDir(dirs', dirs[k].idx + 1) <==> k + 1 < |dirs| && dirs[k + 1].idx == dirs[k].idx + 1
  {
    var dirs' := dirs[..k] + dirs[k + 1..];
    if k + 1 < |dirs| {
      assert dirs'[k] == dirs[k + 1];
      assert forall j :: k + 1 < j < |dirs| ==> dirs[k + 1].idx < dirs[j].idx;
    }
    assert forall j :: 0 <= j < |dirs'| ==> dirs'[j] == dirs[if j < k then j else j + 1];
  }

  lemma HeadStays(a: Abstract, k: nat)
    requires Consistent(a) && k < |a.dirs| && Count(a.owned, a.dirs[k].idx) == 0
    ensures 0 < k
  {
    if k == 0 {
      CountInPositive(a.owned, 0, SLOTS, 0);
    }
  }

  lemma NeededWithout(dirs: seq<PdInfo>, owned: set<nat>, k: nat)
    requires Sorted(dirs) && 0 < k < |dirs| && NeededBut(dirs, owned, dirs[k].idx) && Count(owned, dirs[k].idx) == 0
    ensures Needed(dirs[..k] + dirs[k + 1..], owned)
  {
    var dirs' := dirs[..k] + dirs[k + 1..];
    forall i | i in owned
      ensures HasDir(dirs', PiIdx(i))
    {
      var j :| 0 <= j < |dirs| && dirs[j].idx == PiIdx(i);
      if j == k {
        Join(i);
        CountInPositive(owned, dirs[k].idx * SLOTS, SLOTS, i);
      }
      assert dirs'[if j < k then j else j - 1] == dirs[j];
    }
  }

  lemma EmptyRange(s: set<nat>, lo: nat)
    ensures s + Range(lo, lo) == s
  {
  }

  /** Owning [lo, hi) in two steps. */
  lemma RangeJoin(s: set<nat>, lo: nat, mid: nat, hi: nat, end: nat)
    requires lo <= mid <= hi <= end && s !! Range(lo, end)
    ensures (s + Range(lo, mid)) !! Range(mid, hi)
    ensures s + Range(lo, mid) + Range(mid, hi) == s + Range(lo, hi)
  {
  }

  /** `s` and `m` with the indices [lo, hi) given up. */
  ghost function Without(s: set<nat>, lo: nat, hi: nat): set<nat> {
    s - Range(lo, hi)
  }

  ghost function Untagged(m: map<nat, Tag>, lo: nat, hi: nat): map<nat, Tag> {
    m - Range(lo, hi)
  }

  lemma NothingReleased(s: set<nat>, m: map<nat, Tag>, lo: nat, hi: nat)
    requires lo <= hi && Range(lo, hi) <= s
    ensures Without(s, lo, lo) == s && Untagged(m, lo, lo) == m && (lo < hi ==> lo in s)
  {
    assert lo < hi ==> lo in Range(lo, hi);
  }

  lemma OneReleased(s: set<nat>, m: map<nat, Tag>, lo: nat, i: nat, hi: nat)
    requires lo <= i < hi && Range(lo, hi) <= s
    ensures Without(s, lo, i) - {i} == Without(s, lo, i + 1) && (i + 1 < hi ==> i + 1 in Without(s, lo, i + 1))
    ensures Untagged(m, lo, i) - {i} == Untagged(m, lo, i + 1)
  {
    assert i + 1 < hi ==> i + 1 in Range(lo, hi);
  }

  /** A node is still in the list if one of its pages is still owned. */
  lemma Retained(dirs: seq<PdInfo>, dirs': seq<PdInfo>, owned': set<nat>, d: PdInfo, i: nat)
    requires Sorted(dirs) && Needed(dirs', owned') && (forall x :: x in dirs' ==> x in dirs)
    requires d in dirs && i in owned' && d.idx == PiIdx(i)
    ensures d in dirs'
  {
    var j :| 0 <= j < |dirs'| && dirs'[j].idx == PiIdx(i);
    var x := dirs'[j];
    assert x in dirs;
    var a :| 0 <= a < |dirs| && dirs[a] == x;
    var b :| 0 <= b < |dirs| && dirs[b] == d;
    assert dirs[a].idx == dirs[b].idx;
  }

  lemma {:induction false} SomeOwned(owned: set<nat>, lo: nat, n: nat)
    requires 0 < CountIn(owned, lo, n)
    ensures exists i :: lo <= i < lo + n && i in owned
  {
    if lo + n - 1 !in owned {
      SomeOwned(owned, lo, n - 1);
    }
  }

  /** Every node of the list has an owned slot. */
  lemma OwnedSlot(a: Abstract, d: PdInfo) returns (i: nat)
    requires Consistent(a) && Needed(a.dirs, a.owned) && d in a.dirs
    ensures i in a.owned && PiIdx(i) == d.idx
  {
    var k :| 0 <= k < |a.dirs| && a.dirs[k] == d;
    if k == 0 {
      i := 0;
    } else {
      SomeOwned(a.owned, d.idx * SLOTS, SLOTS);
      i :| d.idx * SLOTS <= i < d.idx * SLOTS + SLOTS && i in a.owned;
    }
  }

  lemma BelowRange(owned: set<nat>, i: nat, first: nat, lo: nat, hi: nat)
    ensures i in owned && PiIdx(i) < PiIdx(lo) ==> i in Without(owned, lo, hi)
    ensures first in owned && first < lo ==> first in Without(owned, lo, hi)
  {
  }

  lemma FirstCounts()
    ensures Count(Range(0, SHIFT), 0) == SHIFT && PdIdx(SHIFT) == 0
  {
    CountInZero({}, 0, SLOTS);
    CountAdd({}, 0, 0, SHIFT);
    assert {} + Range(0, SHIFT) == Range(0, SHIFT);
    Unpack(0, SHIFT);
  }

  /** The directory that `malloc_init` makes. */
  lemma FirstDir(first: PdInfo)
    requires first.idx == 0 && first.dirnum == SHIFT && first.base == NoTags() && first.next == null && first.prev == null
    ensures Consistent(Abstract([first], Range(0, SHIFT), map[])) && Chained([first])
    ensures Packed([first], Range(0, SHIFT)) && Stores([first], map[]) && Needed([first], Range(0, SHIFT))
  {
    FirstCounts();
    hide Count;
    assert HasDir([first], 0) by { assert [first][0].idx == 0; }
  }

  /** From `tags` to `tags'` slots were only marked free, and that of r was. */
  ghost predicate OnlyFrees(tags: map<nat, Tag>, tags': map<nat, Tag>, r: nat) {
    TagOf(tags', r) == Free && forall i {:trigger TagOf(tags', i)} :: TagOf(tags', i) == TagOf(tags, i) || TagOf(tags', i) == Free
  }

  lemma OnlyFreed(tags: map<nat, Tag>, was: map<nat, Tag>, now: map<nat, Tag>, r: nat, i: nat)
    requires now == was[i := Free] && (OnlyFrees(tags, was, r) || (was == tags && i == r))
    ensures OnlyFrees(tags, now, r)
  {
    forall j
      ensures TagOf(now, j) == TagOf(tags, j) || TagOf(now, j) == Free
    {
      assert TagOf(now, j) == if j == i then Free else TagOf(was, j);
    }
  }

  lemma FreesOnly(tags: map<nat, Tag>, tags': map<nat, Tag>, r: nat)
    requires OnlyFrees(tags, tags', r)
    ensures TagOf(tags', r) == Free
    ensures forall i {:trigger TagOf(tags', i)} :: TagOf(tags', i) == TagOf(tags, i) || TagOf(tags', i) == Free
  {
  }

  lemma NextOff(i: nat)
    ensures PiOff(i + 1) == 0 || PiOff(i + 1) == PiOff(i) + 1
  {
  }

  /** Only the head is directory page 0. */
  lemma HeadHasZero(a: Abstract, k: nat)
    requires Consistent(a) && Sorted(a.dirs) && k < |a.dirs|
    ensures a.dirs[k] == a.dirs[0] <==> a.dirs[k].idx == 0
  {
  }

  /** The slot of index i.  The first slots of the head are those of the buckets: `heads` is
      what they hold. */
  ghost function SlotRead(tags: map<nat, Tag>, heads: seq<Tag>, i: nat): Tag {
    if i < |heads| then heads[i] else TagOf(tags, i)
  }

  /** `page_dir` with the two hints. */
  class Directory {
    var head: PdInfo
    var lastDir: PdInfo?
    var prevDir: PdInfo?
    ghost var abs: Abstract

    ghost predicate Hinted()
      reads this
    {
      && 0 < |abs.dirs| && head == abs.dirs[0]
      && (lastDir != null ==> lastDir in abs.dirs)
      && (prevDir != null ==> prevDir in abs.dirs)
    }

    ghost predicate Valid()
      reads this, abs.dirs
    {
      && Consistent(abs) && Hinted()
      && Chained(abs.dirs) && Packed(abs.dirs, abs.owned) && Stores(abs.dirs, abs.tags) && Needed(abs.dirs, abs.owned)
    }

    /** The directory part of `malloc_init`. */
    constructor ()
      ensures Valid() && abs.owned == Range(0, SHIFT) && abs.tags == map[]
      ensures fresh(Nodes())
    {
      var first := new PdInfo(0);
      first.dirnum := SHIFT;
      head, lastDir, prevDir := first, first, null;
      abs := Abstract([first], Range(0, SHIFT), map[]);
      hide Consistent, Chained, Packed, Stores, Needed, Range, NoTags;
      new;
      FirstDir(first);
      OneNode();
      hide Nodes;
    }

    lemma OneNode()
      requires |abs.dirs| == 1
      ensures Nodes() == {abs.dirs[0]}
    {
    }

    /** `pdir_lookup` of an index that has a directory page. */
    method Find(index: nat) returns (pi: PdInfo, ghost k: nat)
      requires Valid() && index in abs.owned
      ensures k < |abs.dirs| && pi == abs.dirs[k] && pi.idx == PiIdx(index)
    {
      hide Packed, Stores, PiIdx;
      var code;
      pi, code, k := Lookup(head, lastDir, prevDir, PiIdx(index), abs.dirs);
      NearestDecides(abs.dirs, PiIdx(index), k);
    }

    /** Makes `pi` the most recent hint, and the one that was the older hint, unless it is the
        most recent one already. */
    method Touch(pi: PdInfo)
      requires Valid() && pi in abs.dirs
      modifies this`lastDir, this`prevDir
      ensures Valid() && lastDir == pi && prevDir == if old(lastDir) == pi then old(prevDir) else old(lastDir)
    {
      if pi != lastDir {
        prevDir, lastDir := lastDir, pi;
      }
    }

    /** `pdir_lookup` of any index, whose result is not looked at. */
    method NearestNode(index: nat) returns (pi: PdInfo, ghost k: nat)
      requires Valid()
      ensures k < |abs.dirs| && pi == abs.dirs[k] && pi in Nodes() && Laid(abs.tags)
      ensures ReadAt(abs.dirs, index) == pi.idx * SLOTS + PiOff(index) && PiIdx(ReadAt(abs.dirs, index)) == pi.idx
    {
      hide PiIdx, PiOff, Packed, Needed, HasDir, Sorted, Linked, Stores;
      var code;
      pi, code, k := Lookup(head, lastDir, prevDir, PiIdx(index), abs.dirs);
      NearestIsOne(abs.dirs, PiIdx(index), k);
      Split(pi.idx, PiOff(index));
    }

    /** The start of `ifree`, for any index: the result of `pdir_lookup` is not looked at, and
        the slot is read in whatever directory page it found.  `heads` is what the first slots
        of the head hold. */
    method Inspect(index: nat, heads: seq<Tag>) returns (tag: Tag)
      requires Valid() && |heads| == SHIFT
      modifies this`lastDir, this`prevDir
      ensures Valid() && lastDir != null && lastDir.idx == PiIdx(ReadAt(abs.dirs, index))
      ensures tag == SlotRead(abs.tags, heads, ReadAt(abs.dirs, index))
    {
      hide PiIdx, Packed, Consistent, Needed, HasDir, Sorted, ReadAt;
      var pi, k := NearestNode(index);
      HeadHasZero(abs, k);
      tag := if pi == head && PiOff(index) < SHIFT then heads[PiOff(index)] else pi.base[PiOff(index)];
      Touch(pi);
    }

    /** Where the loop of `map_pages` is before it handles directory page `idx`: `spi` is
        the last node below it, `cur` the node after it (or, at first, the same node). */
    ghost predicate Cursor(cur: PdInfo?, spi: PdInfo, idx: nat, k: nat)
      reads this`abs
    {
      && k < |abs.dirs| && spi == abs.dirs[k]
      && (if cur == spi then Nearest(abs.dirs, idx, k) && spi.idx <= idx
          else cur == At(abs.dirs, k + 1) && spi.idx < idx && (k + 1 < |abs.dirs| ==> idx <= abs.dirs[k + 1].idx))
    }

    ghost function Nodes(): set<PdInfo>
      reads this`abs
    {
      set d | d in abs.dirs
    }

    /** The directory has kept its nodes, and the others are new. */
    twostate predicate Grown()
      reads this`head, this`abs
    {
      head == old(head) && old(Nodes()) <= Nodes() && forall d :: d in Nodes() ==> d in old(Nodes()) || fresh(d)
    }

    /** A turn of the loop in `map_pages`. */
    method MapTurn(cur: PdInfo?, spi: PdInfo, index: nat, m: nat, idx: nat, ghost k: nat)
      returns (r: PdInfo, ghost k': nat, added: nat)
      requires Valid() && Cursor(cur, spi, idx, k)
      requires 0 < m && PiIdx(index) <= idx <= PiIdx(index + m - 1)
      requires abs.owned !! Range(Lo(index, idx), Hi(index, m, idx))
      modifies this`abs, Nodes()
      ensures Valid() && Grown() && k' < |abs.dirs| && r == abs.dirs[k'] && r.idx == idx
      ensures abs.owned == old(abs.owned) + Range(Lo(index, idx), Hi(index, m, idx)) && abs.tags == old(abs.tags)
      ensures added <= 1 && (old(HasDir(abs.dirs, idx)) ==> added == 0)
    {
      ghost var dirs;
      hide Count, ClaimStep, Lo, Hi, PiIdx, Slots, Packed, Stores, Needed, Chained, HasDir;
      r, dirs, k', added := ClaimDir(cur, spi, index, m, idx, abs.dirs, k, abs.owned, abs.tags);
      ghost var owned := abs.owned + Range(Lo(index, idx), Hi(index, m, idx));
      assert Consistent(Abstract(dirs, owned, abs.tags));
      hide Consistent;
      abs := Abstract(dirs, owned, abs.tags);
    }

    /** Moves both cursors of the loop one node on. */
    method Advance(r: PdInfo, ghost k: nat) returns (next: PdInfo?)
      requires Valid() && k < |abs.dirs| && r == abs.dirs[k]
      ensures Cursor(next, r, r.idx + 1, k) && next != r
    {
      hide Packed, Stores, Needed;
      next := r.next;
    }

    /** A whole turn, with the update of the hints and of the two cursors. */
    method MapStep(cur: PdInfo?, spi: PdInfo, index: nat, m: nat, idx: nat, ghost k: nat)
      returns (next: PdInfo?, r: PdInfo, ghost k': nat, added: nat)
      requires Valid() && Cursor(cur, spi, idx, k)
      requires 0 < m && PiIdx(index) <= idx <= PiIdx(index + m - 1)
      requires abs.owned !! Range(Lo(index, idx), Hi(index, m, idx))
      modifies this, Nodes()
      ensures Valid() && Grown() && Cursor(next, r, idx + 1, k') && next != r
      ensures abs.owned == old(abs.owned) + Range(Lo(index, idx), Hi(index, m, idx)) && abs.tags == old(abs.tags)
      ensures added <= 1 && (old(HasDir(abs.dirs, idx)) ==> added == 0)
    {
      hide Consistent, Chained, Packed, Stores, Needed, Hinted, HasDir, PiIdx, Nodes, Hi, Lo, Cursor;
      r, k', added := MapTurn(cur, spi, index, m, idx, k);
      if idx == PiIdx(index) {
        Touch(r);
      }
      next := Advance(r, k');
    }

    /** `map_pages`, for the m pages that mmap returned at `index`. */
    method MapPages(index: nat, m: nat)
      requires Valid() && 0 < m && abs.owned !! Range(index, index + m)
      modifies this, Nodes()
      ensures Valid() && Grown()
      ensures abs.owned == old(abs.owned) + Range(index, index + m) && abs.tags == old(abs.tags)
    {
      var pidx, lidx := PiIdx(index), PiIdx(index + m - 1);
      var pi, code, k := Lookup(head, lastDir, prevDir, pidx, abs.dirs);
      var needed := lidx - pidx + (if code != 0 then 1 else 0);
      var cnt := MapLoop(pi, index, m, k);
      assert cnt <= needed;  // the "cnt > dirs" check
    }

    /** The loop of `map_pages`, from the node that `pdir_lookup` found. */
    method MapLoop(pi: PdInfo, index: nat, m: nat, ghost k0: nat) returns (cnt: nat)
      requires Valid() && 0 < m && abs.owned !! Range(index, index + m)
      requires Cursor(pi, pi, PiIdx(index), k0)
      modifies this, Nodes()
      ensures Valid() && Grown()
      ensures abs.owned == old(abs.owned) + Range(index, index + m) && abs.tags == old(abs.tags)
      ensures cnt <= PiIdx(index + m - 1) - PiIdx(index) + (if old(HasDir(abs.dirs, PiIdx(index))) then 0 else 1)
    {
      hide Valid, HasDir, PiIdx, Nodes, Lo, Hi, Range, Cursor;
      var pidx, lidx := PiIdx(index), PiIdx(index + m - 1);
      InOrder(index, index + m - 1);
      ClaimStepIsShare(index, m, pidx);
      EmptyRange(abs.owned, index);
      var cur: PdInfo?, spi := pi, pi;
      ghost var pos, k := index, k0;
      var idx := pidx;
      cnt := 0;
      while idx <= lidx
        invariant pidx <= idx <= lidx + 1 && Valid() && Grown() && Cursor(cur, spi, idx, k)
        invariant index <= pos <= index + m && pos == (if idx <= lidx then Lo(index, idx) else index + m)
        invariant abs.owned == old(abs.owned) + Range(index, pos) && abs.tags == old(abs.tags)
        invariant if idx == pidx then cnt == 0 && abs == old(abs)
                  else cnt <= idx - pidx - 1 + (if old(HasDir(abs.dirs, pidx)) then 0 else 1)
      {
        ClaimStepIsShare(index, m, idx);
        if idx < lidx {
          ClaimStepIsShare(index, m, idx + 1);
        }
        RangeJoin(old(abs.owned), index, pos, Hi(index, m, idx), index + m);
        var added;
        cur, spi, k, added := MapStep(cur, spi, index, m, idx, k);
        pos := Hi(index, m, idx);
        cnt := cnt + added;
        idx := idx + 1;
      }
    }
  
    // ----- reading and writing slots

    /** `pi` is the node of the directory page that holds index i. */
    ghost predicate Holds(pi: PdInfo, k: nat, i: nat)
      reads this`abs
    {
      k < |abs.dirs| && pi == abs.dirs[k] && pi.idx == PiIdx(i)
    }

    /** Reads the slot of index i. */
    method Read(pi: PdInfo, i: nat, ghost k: nat) returns (tag: Tag)
      requires Valid() && Holds(pi, k, i)
      ensures tag == TagOf(abs.tags, i)
    {
      Join(i);
      hide PiIdx, Packed, Chained, Needed, Hinted;
      tag := pi.base[PiOff(i)];
    }

    /** Writes the slot of index i. */
    method Write(pi: PdInfo, i: nat, tag: Tag, ghost k: nat)
      requires Valid() && Holds(pi, k, i) && i in abs.owned && SHIFT <= i && tag != NotMine
      modifies this`abs, pi`base
      ensures Valid() && abs == old(abs).(tags := old(abs).tags[i := tag])
    {
      ghost var tags := abs.tags[i := tag];
      assert Consistent(abs.(tags := tags));
      hide PiIdx, Stores, Needed, Packed, Consistent;
      PutSlot(pi, i, tag, abs.dirs, k, abs.tags, tags);
      abs := abs.(tags := tags);
    }

    /** From the directory page of i - 1 to that of i, or NULL if the next one in the list is
        for other pages. */
    method Step(pi: PdInfo, i: nat, ghost k: nat) returns (r: PdInfo?, ghost k': nat)
      requires Valid() && 0 < i && Holds(pi, k, i - 1)
      ensures if r == null then i !in abs.owned else Holds(r, k', i)
    {
      r, k' := pi, k;
      if PiOff(i) == 0 {
        k' := k + 1;
        r := pi.next;
        assert PiIdx(i) == pi.idx + 1;
        if r == null || PdIdx(r.dirnum) != PiIdx(i) {
          NearestDecides(abs.dirs, PiIdx(i), k);
          r := null;
        }
      }
    }
  
    /** The end of `malloc_pages`: tags the n pages at `index`, and the guard page after
        them if g is 1. */
    method MarkRun(index: nat, n: nat, g: nat)
      requires Valid() && SHIFT <= index && 0 < n && g <= 1 && Range(index, index + n + g) <= abs.owned
      modifies this`lastDir, this`prevDir, this`abs, Nodes()`base
      ensures Valid() && abs == old(abs).(tags := WithRun(old(abs).tags, index, n, index + n + g))
      ensures Nodes() == old(Nodes())
    {
      hide Valid, PiIdx, WithRun;
      var pi, k := Find(index);
      Touch(pi);
      WithRunStep(abs.tags, index, n, index);
      Write(pi, index, First, k);
      var i := 1;
      var end := n + g;
      while i < end
        invariant 1 <= i <= end && Valid() && Holds(pi, k, index + i - 1)
        invariant abs == old(abs).(tags := WithRun(old(abs).tags, index, n, index + i))
      {
        WithRunStep(old(abs).tags, index, n, index + i);
        pi, k := WriteNext(pi, index + i, RunTag(index, n, index + i), k);
        i := i + 1;
      }
    }

    /** Goes on to index i and writes its slot. */
    method WriteNext(pi: PdInfo, i: nat, tag: Tag, ghost k: nat) returns (r: PdInfo, ghost k': nat)
      requires Valid() && SHIFT < i && Holds(pi, k, i - 1) && i in abs.owned && tag != NotMine
      modifies this`abs, Nodes()`base
      ensures Valid() && Holds(r, k', i) && abs == old(abs).(tags := old(abs).tags[i := tag])
    {
      hide Consistent, Chained, Packed, Stores, Needed, Hinted, PiIdx;
      var next;
      next, k' := Step(pi, i, k);
      r := next;  // never NULL: there is no "hole in mapped pages directory"
      Write(r, i, tag, k');
    }

    /** The pages of a run, with the guard page, are owned. */
    lemma ShareOfRun(index: nat, n: nat, g: nat)
      requires Valid() && RunAt(abs.tags, index, n) && Range(index, index + n + g) <= abs.owned
      ensures forall i {:trigger i in abs.owned} :: index <= i < index + n + g ==> i in abs.owned
    {
      hide Valid;
      forall i | index <= i < index + n + g
        ensures i in abs.owned
      {
        assert i in Range(index, index + n + g);
      }
    }

    /** The start of `free_pages`: counts the pages of the run at `index` while marking them
        free, and then the guard page.  n is what the count has to recover. */
    method FreeRun(index: nat, g: nat, ghost n: nat) returns (pages: nat, spi: PdInfo, ghost k0: nat)
      requires Valid() && SHIFT <= index && RunAt(abs.tags, index, n) && g <= 1
      requires Range(index, index + n + g) <= abs.owned
      modifies this`abs, Nodes()`base
      ensures Valid() && pages == n && Holds(spi, k0, index)
      ensures abs == old(abs).(tags := WithFree(old(abs).tags, index, index + n + g))
    {
      hide Valid, PiIdx, WithFree, Range;
      ShareOfRun(index, n, g);
      spi, k0 := Find(index);
      WithFreeStep(abs.tags, index, index);
      Write(spi, index, Free, k0);
      var pi: PdInfo?, k, i := spi, k0, 1;
      pi, k := Step(spi, index + i, k);
      FreeTag(old(abs).tags, index, index + i, index + i);
      var more := Follows(pi, index + i, k);
      while more
        invariant 1 <= i <= n && Valid()
        invariant abs == old(abs).(tags := WithFree(old(abs).tags, index, index + i))
        invariant if pi == null then index + i !in abs.owned else Holds(pi, k, index + i)
        invariant more <==> TagOf(old(abs).tags, index + i) == Follow
        invariant more ==> pi != null
        decreases n - i
      {
        WithFreeStep(old(abs).tags, index, index + i);
        Write(pi, index + i, Free, k);
        i := i + 1;
        pi, k := Step(pi, index + i, k);
        FreeTag(old(abs).tags, index, index + i, index + i);
        more := Follows(pi, index + i, k);
      }
      pages := i;
      if g == 1 {
        WithFreeStep(old(abs).tags, index, index + i);
        Write(pi, index + i, Free, k);
      }
    }

    /** Does the run go on at index i? */
    method Follows(pi: PdInfo?, i: nat, ghost k: nat) returns (b: bool)
      requires Valid() && if pi == null then i !in abs.owned else Holds(pi, k, i)
      ensures b <==> TagOf(abs.tags, i) == Follow
      ensures b ==> pi != null
    {
      if pi == null {
        return false;
      }
      hide Chained, Packed, Stores, Needed, Hinted, PiIdx;
      var tag := Read(pi, i, k);
      b := tag == Follow;
    }

    /** The directory pages are linked, and hold these tags, whatever they mean. */
    ghost predicate Laid(tags: map<nat, Tag>)
      reads this`abs, abs.dirs
    {
      0 < |abs.dirs| && Chained(abs.dirs) && Stores(abs.dirs, tags)
    }

    /** Marks the slot at this offset of a directory page free. */
    method FreeSlot(pi: PdInfo, off: nat, ghost k: nat, ghost tags: map<nat, Tag>) returns (ghost tags': map<nat, Tag>)
      requires Laid(tags) && k < |abs.dirs| && pi == abs.dirs[k] && off < SLOTS
      modifies pi`base
      ensures Laid(tags') && tags' == tags[pi.idx * SLOTS + off := Free]
    {
      hide PiIdx, PiOff, Linked, Slots;
      Split(pi.idx, off);
      tags' := tags[pi.idx * SLOTS + off := Free];
      SlotsAfterWrite(tags, tags', pi.idx * SLOTS + off);
      OnlyAt(abs.dirs, k);
      assert forall j {:trigger abs.dirs[j]} :: 0 <= j < |abs.dirs| && j != k ==> abs.dirs[j].idx != pi.idx;
      hide Sorted;
      pi.base := pi.base[off := Free];
    }

    /** From index i - 1, whose slot is looked for in `pd`, to index i: `pi` is NULL if the next
        directory page is for other pages, and then `pd` stays. */
    method StepSeen(pd: PdInfo, i: nat, ghost k: nat, ghost tags: map<nat, Tag>) returns (pi: PdInfo?, pd': PdInfo, ghost k': nat)
      requires Laid(tags) && k < |abs.dirs| && pd == abs.dirs[k]
      ensures k' < |abs.dirs| && pd' == abs.dirs[k'] && (pi == null || pi == pd')
      ensures PiOff(i) != 0 ==> pi == pd && k' == k
      ensures PiOff(i) == 0 && pi != null ==> k' == k + 1 && pi.idx == PiIdx(i)
    {
      hide PiIdx, PiOff, Stores, Sorted;
      pi, pd', k' := pd, pd, k;
      if PiOff(i) == 0 {
        pi := pd.next;
        if pi == null || PdIdx(pi.dirnum) != PiIdx(i) {
          pi := null;
        } else {
          pd', k' := pi, k + 1;
        }
      }
    }

    method FollowSeen(pi: PdInfo?, off: nat, ghost k: nat, ghost tags: map<nat, Tag>) returns (more: bool)
      requires Laid(tags) && k < |abs.dirs| && (pi == null || pi == abs.dirs[k]) && off < SLOTS
      ensures more ==> pi != null && TagOf(tags, pi.idx * SLOTS + off) == Follow
      ensures !more && pi != null ==> TagOf(tags, pi.idx * SLOTS + off) != Follow
    {
      more := pi != null && pi.base[off] == Follow;
    }

    /** The start of `free_pages` as it is for any index: from the slot that is read, on through
        the slots that follow, wherever they are.  Slots are only marked free, and the one that
        is read is. */
    method FreeSeen(index: nat, g: nat) returns (pages: nat, spi: PdInfo, ghost tags': map<nat, Tag>)
      requires Valid() && g <= 1
      modifies Nodes()`base
      ensures Laid(tags') && 0 < pages && spi in Nodes() && spi.idx == PiIdx(ReadAt(abs.dirs, index))
      ensures TagOf(tags', ReadAt(abs.dirs, index)) == Free
      ensures forall i {:trigger TagOf(tags', i)} :: TagOf(tags', i) == TagOf(abs.tags, i) || TagOf(tags', i) == Free
    {
      hide PiIdx, PiOff, Consistent, Packed, Needed, HasDir, Linked, Sorted, Stores, TagOf;
      ghost var k: nat;
      spi, k := NearestNode(index);
      ghost var r := ReadAt(abs.dirs, index);
      tags' := FreeSlot(spi, PiOff(index), k, abs.tags);
      OnlyFreed(abs.tags, abs.tags, tags', r, r);
      var pi: PdInfo?, pd, i := spi, spi, 1;
      pi, pd, k := StepSeen(spi, index + i, k, tags');
      var more := FollowSeen(pi, PiOff(index + i), k, tags');
      while more
        invariant more ==> pi != null
        invariant 1 <= i && k < |abs.dirs| && pd == abs.dirs[k] && (pi == null || pi == pd) && Laid(tags')
        invariant OnlyFrees(abs.tags, tags', r)
        decreases if pi == null then 0 else |abs.dirs| - k, SLOTS - PiOff(index + i)
      {
        ghost var was := tags';
        tags' := FreeSlot(pd, PiOff(index + i), k, tags');
        OnlyFreed(abs.tags, was, tags', r, pd.idx * SLOTS + PiOff(index + i));
        NextOff(index + i);
        i := i + 1;
        pi, pd, k := StepSeen(pd, index + i, k, tags');
        more := FollowSeen(pi, PiOff(index + i), k, tags');
      }
      pages := i;
      if g == 1 {
        ghost var was := tags';
        tags' := FreeSlot(pd, PiOff(index + i), k, tags');
        OnlyFreed(abs.tags, was, tags', r, pd.idx * SLOTS + PiOff(index + i));
      }
      FreesOnly(abs.tags, tags', r);
    }

    /** The size that `irealloc` finds for a page allocation, in pages. */
    method RunLength(index: nat, ghost n: nat) returns (pages: nat)
      requires Valid() && RunAt(abs.tags, index, n) && index in abs.owned
      ensures pages == n
    {
      hide Consistent, Chained, Packed, Stores, Needed, Hinted, PiIdx, Slots;
      var first, k := Find(index);
      pages := 1;
      var pi: PdInfo?;
      pi, k := Step(first, index + pages, k);
      var more := Follows(pi, index + pages, k);
      while more
        invariant 1 <= pages <= n
        invariant if pi == null then index + pages !in abs.owned else Holds(pi, k, index + pages)
        invariant more <==> TagOf(abs.tags, index + pages) == Follow
        invariant more ==> pi != null
        decreases n - pages
      {
        pages := pages + 1;
        pi, k := Step(pi, index + pages, k);
        more := Follows(pi, index + pages, k);
      }
    }
  
    // ----- releasing pages

    /** Valid, but for the hints. */
    ghost predicate Core()
      reads this`head, this`abs, abs.dirs
    {
      && Consistent(abs) && head == abs.dirs[0]
      && Chained(abs.dirs) && Packed(abs.dirs, abs.owned) && Stores(abs.dirs, abs.tags) && Needed(abs.dirs, abs.owned)
    }

    /** As Core, but the directory page of `pi`, if any, may hold nothing any more. */
    ghost predicate CoreBut(pi: PdInfo?, k: nat)
      reads this`head, this`abs, abs.dirs
    {
      && Consistent(abs) && head == abs.dirs[0]
      && Chained(abs.dirs) && Packed(abs.dirs, abs.owned) && Stores(abs.dirs, abs.tags)
      && (if pi == null then Needed(abs.dirs, abs.owned)
          else k < |abs.dirs| && pi == abs.dirs[k] && NeededBut(abs.dirs, abs.owned, pi.idx))
    }

    /** The two blocks of `free_pages` that unlink `pi` when it is empty. */
    method Drop(pi: PdInfo, ghost k: nat) returns (next: PdInfo?, ghost k': nat)
      requires CoreBut(pi, k)
      modifies this`abs, Nodes()
      ensures Core() && Nodes() <= old(Nodes())
      ensures abs.owned == old(abs.owned) && abs.tags == old(abs.tags)
      ensures next == old(At(abs.dirs, k + 1)) && (next != null ==> k' < |abs.dirs| && next == abs.dirs[k'])
      ensures HasDir(abs.dirs, pi.idx + 1) <==> next != null && next.idx == pi.idx + 1
    {
      hide Packed, Stores, Needed, NeededBut, HasDir, Sorted, Linked, PiIdx, PdIdx;
      NextDecides(abs.dirs, k);
      var dropped;
      ghost var dirs;
      next, dirs, dropped := DropIfEmpty(pi, abs, k);
      k' := if dropped then k else k + 1;
      abs := abs.(dirs := dirs);
    }
  
    /** Gives index i up, which may leave its directory page without owned slots. */
    method Clear(pi: PdInfo, i: nat, ghost k: nat)
      requires CoreBut(pi, k) && pi.idx == PiIdx(i) && i in abs.owned && SHIFT <= i
      modifies this`abs, pi`base, pi`dirnum
      ensures CoreBut(pi, k) && abs == Abstract(old(abs.dirs), old(abs.owned) - {i}, old(abs.tags) - {i})
    {
      ghost var a := Abstract(abs.dirs, abs.owned - {i}, abs.tags - {i});
      assert NeededBut(a.dirs, a.owned, pi.idx) && Consistent(a) by {
        CountRemove(abs.owned, i);
      }
      hide Packed, Stores, Needed, NeededBut, Consistent, PiIdx;
      ghost var a' := ClearSlot(pi, i, abs, k);
      abs := a';
    }

    /** A turn of the loop that unmaps pages in `free_pages`.  `stop` is its `break`. */
    method ReleaseTurn(pi: PdInfo, i: nat, ghost k: nat) returns (next: PdInfo?, stop: bool, ghost k': nat)
      requires CoreBut(pi, k) && pi.idx == PiIdx(i) && i in abs.owned && SHIFT <= i
      modifies this`abs, Nodes()
      ensures CoreBut(next, k') && Nodes() <= old(Nodes())
      ensures abs.owned == old(abs.owned) - {i} && abs.tags == old(abs.tags) - {i}
      ensures if stop then i + 1 !in abs.owned else next != null && next.idx == PiIdx(i + 1)
    {
      hide Packed, Stores, Consistent, Chained;
      Clear(pi, i, k);
      next, stop, k' := pi, false, k;
      if PiOff(i + 1) == 0 {
        assert PiIdx(i + 1) == pi.idx + 1;
        next, k' := Drop(pi, k);
        stop := LeavesRange(next, PiIdx(i + 1), k');
      }
    }

    /** Is there no directory page `idx` here? */
    method LeavesRange(pi: PdInfo?, idx: nat, ghost k: nat) returns (stop: bool)
      requires Core() && (pi != null ==> k < |abs.dirs| && pi == abs.dirs[k])
      ensures stop <==> pi == null || pi.idx != idx
    {
      stop := pi == null || PdIdx(pi.dirnum) != idx;
    }

    /** The pages [index, end) go back to the system: the part of `free_pages` that clears
        their slots and frees the directory pages that no longer hold any.  `from` is some
        directory page not above the first one. */
    method Release(from: PdInfo, index: nat, end: nat, ghost k0: nat)
      requires Core() && SHIFT <= index < end && Range(index, end) <= abs.owned
      requires k0 < |abs.dirs| && from == abs.dirs[k0] && from.idx <= PiIdx(index)
      modifies this`abs, Nodes()
      ensures Core() && Nodes() <= old(Nodes())
      ensures abs.owned == Without(old(abs.owned), index, end) && abs.tags == Untagged(old(abs.tags), index, end)
    {
      var pi, k := SeekFrom(from, PiIdx(index), k0);
      ReleaseFrom(pi, index, end, k);
    }

    method ReleaseFrom(first: PdInfo, index: nat, end: nat, ghost k0: nat)
      requires CoreBut(first, k0) && first.idx == PiIdx(index)
      requires SHIFT <= index < end && Range(index, end) <= abs.owned
      modifies this`abs, Nodes()
      ensures Core() && Nodes() <= old(Nodes())
      ensures abs.owned == Without(old(abs.owned), index, end) && abs.tags == Untagged(old(abs.tags), index, end)
    {
      hide Core, CoreBut, PiIdx, Nodes;
      var pi: PdInfo?, i := first, index;
      ghost var k := k0;
      NothingReleased(abs.owned, abs.tags, index, end);
      hide Without, Untagged, Range;
      while i < end
        invariant index <= i <= end && CoreBut(pi, k) && Nodes() <= old(Nodes())
        invariant abs.owned == Without(old(abs.owned), index, i) && abs.tags == Untagged(old(abs.tags), index, i)
        invariant i < end ==> i in abs.owned && pi != null && pi.idx == PiIdx(i)
      {
        OneReleased(old(abs.owned), old(abs.tags), index, i, end);
        var stop;
        pi, stop, k := ReleaseTurn(pi, i, k);
        i := i + 1;
        if stop {
          break;
        }
      }
      LastDrop(pi, k);
    }

    /** Drops the last directory page that the release came to, if nothing in it is owned. */
    method LastDrop(pi: PdInfo?, ghost k: nat)
      requires CoreBut(pi, k)
      modifies this`abs, Nodes()
      ensures Core() && Nodes() <= old(Nodes())
      ensures abs.owned == old(abs.owned) && abs.tags == old(abs.tags)
    {
      if pi != null {
        hide Packed, Stores, Chained, Consistent, Needed, NeededBut, HasDir;
        var _, _ := Drop(pi, k);
      }
    }

    /** Walks from the node of a free entry to directory page `pidx`. */
    method SeekFrom(from: PdInfo, pidx: nat, ghost k0: nat) returns (pi: PdInfo, ghost k: nat)
      requires Core() && HasDir(abs.dirs, pidx)
      requires k0 < |abs.dirs| && from == abs.dirs[k0] && from.idx <= pidx
      ensures k < |abs.dirs| && pi == abs.dirs[k] && pi.idx == pidx
    {
      hide Packed, Stores, Needed, Consistent;
      var p: PdInfo? := from;
      k := k0;
      ghost var j :| 0 <= j < |abs.dirs| && abs.dirs[j].idx == pidx;
      while p != null && PdIdx(p.dirnum) < pidx
        invariant k <= j && p == At(abs.dirs, k)
        decreases j - k
      {
        p := p.next;
        k := k + 1;
      }
      pi := p;
    }
  
    /** A hint that is still right after the release of pages: some slot of its directory
        page is still owned. */
    lemma Kept(dirs: seq<PdInfo>, d: PdInfo?, i: nat)
      requires Core() && Sorted(dirs) && Nodes() <= set x | x in dirs
      requires d != null ==> d in dirs && i in abs.owned && d.idx == PiIdx(i)
      ensures d != null ==> d in abs.dirs
    {
      if d != null {
        forall x | x in abs.dirs ensures x in dirs { assert x in Nodes(); }
        Retained(dirs, abs.dirs, abs.owned, d, i);
      }
    }

    /** Forgets the older hint if its node may go; otherwise i is a slot that keeps it in the
        list. */
    method ForgetPrev(pidx: nat) returns (ghost i: nat)
      requires Valid()
      modifies this`prevDir
      ensures Valid() && (prevDir != null ==> i in abs.owned && PiIdx(i) == prevDir.idx < pidx)
    {
      i := 0;
      if prevDir != null && PdIdx(prevDir.dirnum) >= pidx {
        prevDir := null;
      }
      if prevDir != null {
        i := OwnedSlot(abs, prevDir);
      }
    }

    /** The part of `free_pages` that gives the pages [index, end) of the entry that starts
        at page `first` back to the system; `whole` says that nothing is left of it.  The
        hints are reset whenever their node may be freed. */
    method Unmap(from: PdInfo, index: nat, end: nat, whole: bool, ghost first: nat)
      requires Valid() && lastDir == from && from.idx == PiIdx(first) && first <= index
      requires SHIFT <= index < end && Range(index, end) <= abs.owned && (whole || (first < index && first in abs.owned))
      modifies this`lastDir, this`prevDir, this`abs, Nodes()
      ensures Valid() && Nodes() <= old(Nodes())
      ensures abs.owned == Without(old(abs.owned), index, end) && abs.tags == Untagged(old(abs.tags), index, end)
    {
      hide Core, Sorted, Valid, Nodes, Range, PiIdx, Without, Untagged;
      ghost var i := ForgetPrev(PiIdx(index));
      ghost var dirs := abs.dirs;
      UnmapStarts(from);
      ghost var k := PlaceOf(from);
      BelowRange(abs.owned, i, first, index, end);
      InOrder(first, index);
      Release(from, index, end, k);
      SetHints(from, whole, dirs, i, first);
    }

    /** The node for a page after the one that `from` is for. */
    method NodeFor(from: PdInfo, page: nat) returns (pi: PdInfo)
      requires Valid() && from in Nodes() && page in abs.owned && from.idx <= PiIdx(page)
      ensures pi in Nodes() && pi.idx == PiIdx(page)
    {
      hide PiIdx;
      ghost var k := PlaceOf(from);
      assert HasDir(abs.dirs, PiIdx(page));
      ghost var at;
      pi, at := SeekFrom(from, PiIdx(page), k);
    }

    lemma PlaceOf(d: PdInfo) returns (k: nat)
      requires Valid() && d in abs.dirs
      ensures k < |abs.dirs| && abs.dirs[k] == d
      ensures Core() && Sorted(abs.dirs) && (lastDir != null ==> lastDir in abs.dirs) && (prevDir != null ==> prevDir in abs.dirs)
      ensures Nodes() == set x | x in abs.dirs
    {
      k :| 0 <= k < |abs.dirs| && abs.dirs[k] == d;
    }

    lemma UnmapStarts(from: PdInfo)
      requires Valid() && lastDir == from
      ensures Core() && Sorted(abs.dirs) && from in abs.dirs && (prevDir != null ==> prevDir in abs.dirs)
      ensures Nodes() == set x | x in abs.dirs
    {
      hide Linked, Packed, Stores, Needed;
    }

    /** If all of the entry went, the older hint becomes the only one. */
    method SetHints(from: PdInfo, whole: bool, ghost dirs: seq<PdInfo>, ghost i: nat, ghost first: nat)
      requires Core() && Sorted(dirs) && Nodes() <= set x | x in dirs
      requires prevDir != null ==> prevDir in dirs && i in abs.owned && prevDir.idx == PiIdx(i)
      requires lastDir == from && from in dirs && from.idx == PiIdx(first) && (whole || first in abs.owned)
      modifies this`lastDir, this`prevDir
      ensures Valid()
    {
      Kept(dirs, prevDir, i);
      if whole {
        lastDir, prevDir := prevDir, null;
      } else {
        Kept(dirs, from, first);
      }
    }
  }
}
