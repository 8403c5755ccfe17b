/** The free list of src/ext/OpenBSD_malloc_Linux.c: runs of free pages, in address order,
    with a gap between neighbours. */
module FreeList {
  import opened PageDirectory

  /** A run of pages: the indices [start, start + len). */
  datatype Run = Run(start: nat, len: nat) {
    function End(): nat { start + len }
  }

  /** Address order, no empty run, and no two runs that touch: fully coalesced. */
  ghost predicate Normal(runs: seq<Run>) {
    && (forall i {:trigger runs[i].len} :: 0 <= i < |runs| ==> 0 < runs[i].len)
    && (forall i, j {:trigger runs[i].End(), runs[j].start} :: 0 <= i < j < |runs| ==> runs[i].End() < runs[j].start)
  }

  /** The free pages. */
  ghost function Pages(runs: seq<Run>): set<nat> {
    if runs == [] then {} else Pages(runs[..|runs| - 1]) + Range(runs[|runs| - 1].start, runs[|runs| - 1].End())
  }

  function Total(runs: seq<Run>): nat {
    if runs == [] then 0 else Total(runs[..|runs| - 1]) + runs[|runs| - 1].len
  }

  /** Run i holds page p. */
  predicate Holds(runs: seq<Run>, i: int, p: nat) {
    0 <= i < |runs| && runs[i].start <= p < runs[i].End()
  }

  lemma {:induction false} PagesIn(runs: seq<Run>, p: nat)
    ensures p in Pages(runs) <==> exists i :: Holds(runs, i, p)
  {
    if runs != [] {
      var front := runs[..|runs| - 1];
      PagesIn(front, p);
      if p in Pages(runs) {
        if p in Pages(front) {
          var i :| Holds(front, i, p);
          assert Holds(runs, i, p);
        } else {
          assert Holds(runs, |runs| - 1, p);
        }
      } else if i :| Holds(runs, i, p) {
        assert i < |front| ==> Holds(front, i, p);
      }
    }
  }

  lemma PagesAll(runs: seq<Run>)
    ensures forall p :: p in Pages(runs) <==> exists i :: Holds(runs, i, p)
  {
    forall p: nat
      ensures p in Pages(runs) <==> exists i :: Holds(runs, i, p)
    {
      PagesIn(runs, p);
    }
  }

  /** The total is the number of free pages. */
  lemma {:induction false} TotalCounts(runs: seq<Run>)
    requires Normal(runs)
    ensures Total(runs) == |Pages(runs)|
  {
    if runs != [] {
      var front, last := runs[..|runs| - 1], runs[|runs| - 1];
      TotalCounts(front);
      PagesAll(front);
      RangeSize(last.start, last.End());
      assert Pages(front) !! Range(last.start, last.End());
    }
  }

  /** A run of free pages lies within one entry, because entries do not touch. */
  lemma {:induction false} WithinOne(runs: seq<Run>, lo: nat, hi: nat) returns (i: nat)
    requires Normal(runs) && lo < hi && Range(lo, hi) <= Pages(runs)
    ensures i < |runs| && runs[i].start <= lo && hi <= runs[i].End()
    decreases hi - lo
  {
    hide Pages;
    PagesIn(runs, hi - 1);
    assert hi - 1 in Range(lo, hi);
    if lo + 1 == hi {
      i :| Holds(runs, i, lo);
    } else {
      assert Range(lo, hi - 1) <= Range(lo, hi);
      hide Range;
      i := WithinOne(runs, lo, hi - 1);
      var j :| Holds(runs, j, hi - 1);
    }
  }

  lemma RunPages(runs: seq<Run>, i: nat)
    requires i < |runs|
    ensures Range(runs[i].start, runs[i].End()) <= Pages(runs)
  {
    PagesAll(runs);
    forall p | p in Range(runs[i].start, runs[i].End())
      ensures p in Pages(runs)
    {
      assert Holds(runs, i, p);
    }
  }

  lemma FirstPage(runs: seq<Run>, i: nat)
    requires Normal(runs) && i < |runs|
    ensures 0 < runs[i].len && runs[i].start in Pages(runs)
  {
    RunPages(runs, i);
    assert 0 < runs[i].len;
    assert runs[i].start in Range(runs[i].start, runs[i].End());
  }

  /** Every entry of `r` is an entry of any coalesced list of the same pages. */
  lemma Matching(r: seq<Run>, s: seq<Run>, i: nat) returns (j: nat)
    requires Normal(r) && Normal(s) && Pages(r) == Pages(s) && i < |r|
    ensures j < |s| && s[j] == r[i]
  {
    RunPages(r, i);
    assert 0 < r[i].len;
    j := WithinOne(s, r[i].start, r[i].End());
    RunPages(s, j);
    assert 0 < s[j].len;
    var k := WithinOne(r, s[j].start, s[j].End());
    assert Holds(r, k, r[i].start) && Holds(r, i, r[i].start);
  }

  lemma LastMatches(r: seq<Run>, s: seq<Run>)
    requires Normal(r) && Normal(s) && Pages(r) == Pages(s) && r != [] && s != []
    ensures r[|r| - 1] == s[|s| - 1]
    ensures Pages(r[..|r| - 1]) == Pages(s[..|s| - 1])
  {
    var a, b := r[|r| - 1], s[|s| - 1];
    var j := Matching(r, s, |r| - 1);
    var k := Matching(s, r, |s| - 1);
    assert 0 < a.len && 0 < b.len;
    FrontPages(r);
    FrontPages(s);
  }

  lemma FrontNormal(r: seq<Run>)
    requires Normal(r) && r != []
    ensures Normal(r[..|r| - 1])
  {
  }

  lemma FrontPages(r: seq<Run>)
    requires Normal(r) && r != []
    ensures Pages(r[..|r| - 1]) == Pages(r) - Range(r[|r| - 1].start, r[|r| - 1].End())
  {
    var front := r[..|r| - 1];
    PagesAll(front);
    assert Pages(front) !! Range(r[|r| - 1].start, r[|r| - 1].End());
  }

  /** There is one coalesced list for a set of pages: two entries with the same pages are
      the same entry. */
  lemma {:induction false} NormalUnique(r: seq<Run>, s: seq<Run>)
    requires Normal(r) && Normal(s) && Pages(r) == Pages(s)
    ensures r == s
  {
    hide Pages, Normal, Total;
    if r == [] || s == [] {
      EmptyPages(r);
      EmptyPages(s);
    } else {
      var a, b := r[|r| - 1], s[|s| - 1];
      LastMatches(r, s);
      FrontNormal(r);
      FrontNormal(s);
      NormalUnique(r[..|r| - 1], s[..|s| - 1]);
      assert r == r[..|r| - 1] + [a] && s == s[..|s| - 1] + [b];
    }
  }

  lemma EmptyPages(r: seq<Run>)
    requires Normal(r)
    ensures Pages(r) == {} <==> r == []
  {
    if r != [] {
      assert r[|r| - 1].start in Range(r[|r| - 1].start, r[|r| - 1].End());
    }
  }

  // ----- changes of one entry

  lemma {:induction false} Concat(a: seq<Run>, b: seq<Run>)
    ensures Pages(a + b) == Pages(a) + Pages(b) && Total(a + b) == Total(a) + Total(b)
  {
    if b == [] {
      assert a + b == a;
    } else {
      assert (a + b)[..|a + b| - 1] == a + b[..|b| - 1];
      Concat(a, b[..|b| - 1]);
    }
  }

  lemma Single(r: Run)
    ensures Pages([r]) == Range(r.start, r.End()) && Total([r]) == r.len
  {
    assert [r][..0] == [];
  }

  lemma WithoutEntry(runs: seq<Run>, k: nat)
    requires k < |runs|
    ensures var r, rest := runs[k], runs[..k] + runs[k + 1..];
            Pages(runs) == Pages(rest) + Range(r.start, r.End()) && Total(runs) == Total(rest) + r.len
  {
    var r := runs[k];
    assert runs == runs[..k] + [r] + runs[k + 1..];
    Concat(runs[..k] + [r], runs[k + 1..]);
    Concat(runs[..k], [r]);
    Concat(runs[..k], runs[k + 1..]);
    Single(r);
  }

  /** The list around entry k, whose pages are disjoint from the rest. */
  lemma Around(runs: seq<Run>, k: nat)
    requires Normal(runs) && k < |runs|
    ensures var r, rest := runs[k], runs[..k] + runs[k + 1..];
            Pages(runs) == Pages(rest) + Range(r.start, r.End()) && Pages(rest) !! Range(r.start, r.End()) &&
            Total(runs) == Total(rest) + r.len && Normal(rest)
  {
    WithoutEntry(runs, k);
    RestNormal(runs, k);
    RestApart(runs, k);
  }

  lemma RestNormal(runs: seq<Run>, k: nat)
    requires Normal(runs) && k < |runs|
    ensures var rest := runs[..k] + runs[k + 1..];
            Normal(rest) && forall i {:trigger rest[i]} :: 0 <= i < |rest| ==> rest[i] == runs[if i < k then i else i + 1]
  {
  }

  lemma RestApart(runs: seq<Run>, k: nat)
    requires Normal(runs) && k < |runs|
    ensures Pages(runs[..k] + runs[k + 1..]) !! Range(runs[k].start, runs[k].End())
  {
    var r, rest := runs[k], runs[..k] + runs[k + 1..];
    RestNormal(runs, k);
    hide Pages;
    forall p | p in Pages(rest)
      ensures p !in Range(r.start, r.End())
    {
      PagesIn(rest, p);
      var i :| Holds(rest, i, p);
      assert rest[i] == runs[if i < k then i else i + 1];
    }
  }

  /** `runs` with r in front of entry k. */
  function Inserted(runs: seq<Run>, k: nat, r: Run): seq<Run>
    requires k <= |runs|
  {
    runs[..k] + [r] + runs[k..]
  }

  lemma InsertedPages(runs: seq<Run>, k: nat, r: Run)
    requires k <= |runs|
    ensures Pages(Inserted(runs, k, r)) == Pages(runs) + Range(r.start, r.End())
    ensures Total(Inserted(runs, k, r)) == Total(runs) + r.len
  {
    assert runs == runs[..k] + runs[k..];
    Concat(runs[..k], runs[k..]);
    Concat(runs[..k] + [r], runs[k..]);
    Concat(runs[..k], [r]);
    Single(r);
  }

  lemma InsertedNormal(runs: seq<Run>, k: nat, r: Run)
    requires Normal(runs) && k <= |runs| && 0 < r.len
    requires (0 < k ==> runs[k - 1].End() < r.start) && (k < |runs| ==> r.End() < runs[k].start)
    ensures Normal(Inserted(runs, k, r))
  {
    var s := Inserted(runs, k, r);
    assert forall i {:trigger s[i]} :: 0 <= i < |s| ==> s[i] == if i < k then runs[i] else if i == k then r else runs[i - 1];
    forall i, j | 0 <= i < j < |s|
      ensures s[i].End() < s[j].start
    {
      assert j == k && 0 < k ==> runs[i].End() <= runs[k - 1].End();
      assert i == k && k < j - 1 ==> runs[k].End() < runs[j - 1].start;
    }
  }

  /** Entry k becomes r. */
  lemma Replaced(runs: seq<Run>, k: nat, r: Run)
    requires Normal(runs) && k < |runs| && 0 < r.len
    requires (0 < k ==> runs[k - 1].End() < r.start) && (k + 1 < |runs| ==> r.End() < runs[k + 1].start)
    ensures Normal(runs[k := r])
    ensures Pages(runs[k := r]) == Pages(runs) - Range(runs[k].start, runs[k].End()) + Range(r.start, r.End())
    ensures Total(runs[k := r]) == Total(runs) - runs[k].len + r.len
  {
    hide Normal, Pages, Total, Range;
    var rest := runs[..k] + runs[k + 1..];
    Around(runs, k);
    assert rest[..k] == runs[..k] && rest[k..] == runs[k + 1..];
    assert runs[k := r] == Inserted(rest, k, r);
    InsertedPages(rest, k, r);
    InsertedNormal(rest, k, r);
  }

  // ----- the linked list

  /** `struct pgfree`, with sizes in pages. */
  class PgFree {
    var next: PgFree?
    var prev: PgFree?
    var page: nat
    var pdir: PdInfo?
    var size: nat

    constructor (page: nat, size: nat, pdir: PdInfo?)
      ensures this.page == page && this.size == size && this.pdir == pdir && next == null && prev == null
    {
      this.page, this.size, this.pdir, next, prev := page, size, pdir, null, null;
    }
  }

  ghost function NodeAt(nodes: seq<PgFree>, k: int): PgFree? {
    if 0 <= k < |nodes| then nodes[k] else null
  }

  ghost predicate NoDup(nodes: seq<PgFree>) {
    forall i, j :: 0 <= i < j < |nodes| ==> nodes[i] != nodes[j]
  }

  /** The list that hangs on the sentinel `head` (`free_list`). */
  ghost predicate Chain(head: PgFree, nodes: seq<PgFree>)
    reads head`next, nodes`next, nodes`prev
  {
    && NoDup(nodes) && head !in nodes
    && head.next == NodeAt(nodes, 0)
    && (forall k {:trigger nodes[k].next} :: 0 <= k < |nodes| ==> nodes[k].next == NodeAt(nodes, k + 1))
    && (forall k {:trigger nodes[k].prev} :: 0 <= k < |nodes| ==> nodes[k].prev == if k == 0 then head else nodes[k - 1])
  }

  /** The nodes describe the runs, and each names the directory page of its first page. */
  ghost predicate Describes(nodes: seq<PgFree>, runs: seq<Run>)
    reads nodes`page, nodes`size, nodes`pdir
  {
    && |nodes| == |runs|
    && (forall k {:trigger nodes[k].page} {:trigger nodes[k].size} {:trigger nodes[k].pdir} :: 0 <= k < |nodes| ==>
          nodes[k].page == runs[k].start && nodes[k].size == runs[k].len &&
          nodes[k].pdir != null && nodes[k].pdir.idx == PiIdx(runs[k].start))
  }

  method UnlinkNode(head: PgFree, pf: PgFree, ghost nodes: seq<PgFree>, ghost k: nat)
    requires Chain(head, nodes) && k < |nodes| && pf == nodes[k]
    modifies head`next, nodes`next, nodes`prev
    ensures Chain(head, nodes[..k] + nodes[k + 1..])
    ensures pf.next == old(pf.next) && pf.prev == old(pf.prev)
  {
    SkipNode(nodes, k);
    if pf.next != null {
      pf.next.prev := pf.prev;
    }
    pf.prev.next := pf.next;
  }

  /** Where the others are once position k is gone. */
  lemma SkipNode(nodes: seq<PgFree>, k: nat)
    requires NoDup(nodes) && k < |nodes|
    ensures var nodes' := nodes[..k] + nodes[k + 1..];
            && NoDup(nodes')
            && (forall i {:trigger nodes'[i]} :: 0 <= i < |nodes'| ==> nodes'[i] == if i < k then nodes[i] else nodes[i + 1])
            && (forall i {:trigger NodeAt(nodes', i)} :: NodeAt(nodes', i) == if i < k then NodeAt(nodes, i) else NodeAt(nodes, i + 1))
  {
  }

  method InsertNode(head: PgFree, px: PgFree, pf: PgFree, ghost nodes: seq<PgFree>, ghost k: nat)
    requires Chain(head, nodes) && k < |nodes| && pf == nodes[k] && px !in nodes && px != head
    modifies head`next, nodes`next, nodes`prev, px`next, px`prev
    ensures Chain(head, nodes[..k] + [px] + nodes[k..])
  {
    px.next := pf;
    px.prev := pf.prev;
    pf.prev := px;
    px.prev.next := px;
    ghost var nodes' := nodes[..k] + [px] + nodes[k..];
    assert forall i {:trigger nodes'[i]} :: 0 <= i < |nodes'| ==> nodes'[i] == if i < k then nodes[i] else if i == k then px else nodes[i - 1];
  }

  /** At the tail of the chain; `last` is the sentinel when the list is empty. */
  method AppendNode(head: PgFree, px: PgFree, last: PgFree, ghost nodes: seq<PgFree>)
    requires Chain(head, nodes) && px !in nodes && px != head
    requires last == if nodes == [] then head else nodes[|nodes| - 1]
    modifies head`next, nodes`next, px`next, px`prev
    ensures Chain(head, nodes + [px])
  {
    px.next := null;
    px.prev := last;
    last.next := px;
  }

  method UnlinkEntry(head: PgFree, pf: PgFree, ghost nodes: seq<PgFree>, ghost runs: seq<Run>, ghost k: nat)
    requires Chain(head, nodes) && Describes(nodes, runs) && k < |nodes| && pf == nodes[k]
    modifies head`next, nodes`next, nodes`prev
    ensures Chain(head, nodes[..k] + nodes[k + 1..]) && Describes(nodes[..k] + nodes[k + 1..], runs[..k] + runs[k + 1..])
    ensures pf.next == old(pf.next) && pf.prev == old(pf.prev)
  {
    hide Chain, PiIdx;
    UnlinkNode(head, pf, nodes, k);
  }

  method SetEntry(head: PgFree, pf: PgFree, r: Run, pdir: PdInfo, ghost nodes: seq<PgFree>, ghost runs: seq<Run>, ghost k: nat)
    requires Chain(head, nodes) && Describes(nodes, runs) && k < |nodes| && pf == nodes[k] && pdir.idx == PiIdx(r.start)
    modifies pf`page, pf`size, pf`pdir
    ensures Chain(head, nodes) && Describes(nodes, runs[k := r]) && pf.pdir == pdir
  {
    pf.page, pf.size, pf.pdir := r.start, r.len, pdir;
  }

  /** First fit takes the lowest-addressed run that is large enough. */
  lemma FirstFitIsLowest(runs: seq<Run>, k: nat, need: nat, q: nat)
    requires Normal(runs) && 0 < need && k <= |runs| && forall j :: 0 <= j < k ==> runs[j].len < need
    requires Range(q, q + need) <= Pages(runs)
    ensures k < |runs| && (need <= runs[k].len ==> runs[k].start <= q)
  {
    var i := WithinOne(runs, q, q + need);
    assert k <= i;
    assert k < i ==> runs[k].End() < runs[i].start;
  }

  // ----- free_list

  /** The part of entry r that the m pages at p have joined to them from behind, if they
      were appended to another part of it. */
  function Absorbed(r: Run, p: nat, m: nat): nat {
    if r.start < p && p + m <= r.End() then r.End() - (p + m) else 0
  }

  /** r is one of the maximal runs of free pages. */
  ghost predicate Maximal(r: Run, free: set<nat>) {
    0 < r.len && Range(r.start, r.End()) <= free && (0 < r.start ==> r.start - 1 !in free) && r.End() !in free
  }

  lemma EntryIsMaximal(runs: seq<Run>, i: nat)
    requires Normal(runs) && i < |runs|
    ensures Maximal(runs[i], Pages(runs))
  {
    RunPages(runs, i);
    PagesAll(runs);
  }

  /** What the free list stands for: its nodes in order, and the runs they describe. */
  datatype Listing = Listing(nodes: seq<PgFree>, runs: seq<Run>)

  class List {
    const head: PgFree
    ghost var abs: Listing

    ghost predicate Valid()
      reads this, head, abs.nodes
    {
      |abs.nodes| == |abs.runs| && Chain(head, abs.nodes) && Describes(abs.nodes, abs.runs) && Normal(abs.runs)
    }

    ghost function Nodes(): set<PgFree>
      reads this`abs
    {
      {head} + set n | n in abs.nodes
    }

    ghost function Free(): set<nat>
      reads this`abs
    {
      Pages(abs.runs)
    }

    constructor ()
      ensures Valid() && fresh(head) && abs == Listing([], []) && Nodes() == {head} && Free() == {} && Total(abs.runs) == 0
    {
      head := new PgFree(0, 0, null);
      abs := Listing([], []);
    }

    /** The search of `malloc_pages`. */
    method FirstFit(need: nat) returns (pf: PgFree?, ghost k: nat)
      requires Valid()
      ensures k <= |abs.runs| == |abs.nodes| && pf == NodeAt(abs.nodes, k) && forall j :: 0 <= j < k ==> abs.runs[j].len < need
      ensures pf != null ==> need <= abs.runs[k].len
    {
      pf := head.next;
      k := 0;
      while pf != null && pf.size < need
        invariant k <= |abs.runs| && pf == NodeAt(abs.nodes, k)
        invariant forall j :: 0 <= j < k ==> abs.runs[j].len < need
        decreases |abs.runs| - k
      {
        pf := pf.next;
        k := k + 1;
      }
    }

    /** Takes a whole entry out. */
    method Remove(pf: PgFree, ghost k: nat)
      requires Valid() && k < |abs.nodes| && pf == abs.nodes[k]
      modifies this`abs, Nodes()`next, Nodes()`prev
      ensures Valid() && abs.nodes == old(abs.nodes)[..k] + old(abs.nodes)[k + 1..]
      ensures abs.runs == old(abs.runs)[..k] + old(abs.runs)[k + 1..]
      ensures Free() == old(Free()) - Range(old(abs.runs)[k].start, old(abs.runs)[k].End())
      ensures Total(abs.runs) == old(Total(abs.runs)) - old(abs.runs)[k].len && Nodes() <= old(Nodes())
    {
      hide Normal, Pages, Total, Range, Chain, Describes;
      Around(abs.runs, k);
      UnlinkEntry(head, pf, abs.nodes, abs.runs, k);
      abs := Listing(abs.nodes[..k] + abs.nodes[k + 1..], abs.runs[..k] + abs.runs[k + 1..]);
    }

    /** Gives an entry another run, which stays clear of its neighbours. */
    method Resize(pf: PgFree, page: nat, size: nat, pdir: PdInfo, ghost k: nat)
      requires Valid() && k < |abs.nodes| && pf == abs.nodes[k] && 0 < size && pdir.idx == PiIdx(page)
      requires (0 < k ==> abs.runs[k - 1].End() < page) && (k + 1 < |abs.runs| ==> page + size < abs.runs[k + 1].start)
      modifies this`abs, pf`page, pf`size, pf`pdir
      ensures Valid() && abs == Listing(old(abs.nodes), old(abs.runs)[k := Run(page, size)]) && Nodes() == old(Nodes())
      ensures pf.pdir == pdir
      ensures Free() == old(Free()) - Range(old(abs.runs)[k].start, old(abs.runs)[k].End()) + Range(page, page + size)
      ensures Total(abs.runs) == old(Total(abs.runs)) - old(abs.runs)[k].len + size
    {
      hide Normal, Pages, Total, Range, PiIdx, Chain, Describes;
      Replaced(abs.runs, k, Run(page, size));
      SetEntry(head, pf, Run(page, size), pdir, abs.nodes, abs.runs, k);
      abs := abs.(runs := abs.runs[k := Run(page, size)]);
    }
  
    /** The two loops of `free_pages` over the list: where the run at `ptr` belongs, and the
        size of the whole list. */
    method Locate(ptr: nat) returns (pf: PgFree, cachesize: nat, ghost k: nat)
      requires Valid() && abs.nodes != []
      ensures k < |abs.nodes| == |abs.runs| && pf == abs.nodes[k] && cachesize == Total(abs.runs)
      ensures 0 < k ==> abs.runs[k - 1].End() < ptr
      ensures ptr <= abs.runs[k].End() || k + 1 == |abs.runs|
    {
      hide Normal, PiIdx;
      ghost var runs := abs.runs;
      pf, cachesize, k := head.next, 0, 0;
      while ptr > pf.page + pf.size && pf.next != null
        invariant k < |runs| && pf == abs.nodes[k] && cachesize == Total(runs[..k])
        invariant 0 < k ==> runs[k - 1].End() < ptr
        decreases |runs| - k
      {
        assert runs[..k + 1][..k] == runs[..k];
        cachesize := cachesize + pf.size;
        pf := pf.next;
        k := k + 1;
      }
      var pt: PgFree? := pf;
      ghost var j := k;
      while pt != null
        invariant j <= |runs| && pt == NodeAt(abs.nodes, j) && cachesize == Total(runs[..j])
        decreases |runs| - j
      {
        assert runs[..j + 1][..j] == runs[..j];
        cachesize := cachesize + pt.size;
        pt := pt.next;
        j := j + 1;
      }
      assert runs[..|runs|] == runs;
    }

    /** `px` becomes entry k: "insert before entry", "append at tail" or "nothing on free list". */
    method PutEntry(px: PgFree, pf: PgFree, tail: bool, ghost k: nat)
      requires Valid() && px !in Nodes() && 0 < px.size && px.pdir != null && px.pdir.idx == PiIdx(px.page)
      requires if tail then k == |abs.nodes| && pf == (if k == 0 then head else abs.nodes[k - 1]) else k < |abs.nodes| && pf == abs.nodes[k]
      requires (0 < k ==> abs.runs[k - 1].End() < px.page) && (k < |abs.runs| ==> px.page + px.size < abs.runs[k].start)
      modifies this`abs, Nodes()`next, Nodes()`prev, px`next, px`prev
      ensures Valid() && k < |abs.nodes| && px == abs.nodes[k] && abs.runs == Inserted(old(abs.runs), k, Run(px.page, px.size))
      ensures Nodes() == old(Nodes()) + {px} && forall x {:trigger x.pdir} :: x in old(Nodes()) + {px} ==> x.pdir == old(x.pdir)
      ensures Free() == old(Free()) + Range(px.page, px.page + px.size)
      ensures Total(abs.runs) == old(Total(abs.runs)) + px.size
    {
      hide Normal, Pages, Total, Range, Chain, Describes, PiIdx;
      ghost var r := Run(px.page, px.size);
      InsertedPages(abs.runs, k, r);
      InsertedNormal(abs.runs, k, r);
      LinkEntry(head, px, pf, tail, abs.nodes, abs.runs, k);
      abs := Listing(abs.nodes[..k] + [px] + abs.nodes[k..], Inserted(abs.runs, k, r));
    }
  
    lemma About(pf: PgFree, k: nat)
      requires Valid() && k < |abs.nodes| && pf == abs.nodes[k]
      ensures pf in Nodes() && pf != head && |abs.nodes| == |abs.runs| && Normal(abs.runs)
      ensures pf.page == abs.runs[k].start && pf.size == abs.runs[k].len && pf.pdir != null && pf.pdir.idx == PiIdx(pf.page)
      ensures if k + 1 < |abs.runs| then pf.next != null && pf.next == abs.nodes[k + 1] && pf.next in Nodes() &&
                pf.next.page == abs.runs[k + 1].start && pf.next.size == abs.runs[k + 1].len
              else pf.next == null
    {
    }

    lemma EntryMaximal(k: nat)
      requires Valid() && k < |abs.runs|
      ensures Maximal(abs.runs[k], Free())
    {
      EntryIsMaximal(abs.runs, k);
    }

    /** "Append to the previous entry", and collapse the next one too if it touches. */
    method AppendTo(pf: PgFree, l: nat, ghost k: nat) returns (ghost absorbed: nat)
      requires Valid() && k < |abs.nodes| && pf == abs.nodes[k] && 0 < l
      requires Range(abs.runs[k].End(), abs.runs[k].End() + l) !! Free()
      modifies this`abs, Nodes()`next, Nodes()`prev, pf`page, pf`size, pf`pdir
      ensures Valid() && k < |abs.nodes| && abs.nodes[k] == pf && Nodes() <= old(Nodes()) && pf.pdir == old(pf.pdir)
      ensures abs.runs[k] == Run(old(abs.runs)[k].start, old(abs.runs)[k].len + l + absorbed)
      ensures Free() == old(Free()) + Range(old(abs.runs)[k].End(), old(abs.runs)[k].End() + l)
      ensures Total(abs.runs) == old(Total(abs.runs)) + l && absorbed + old(abs.runs)[k].len <= old(Total(abs.runs))
    {
      hide Normal, Pages, Total, Range, PiIdx, Nodes, Valid, NodeAt;
      About(pf, k);
      Neighbours(abs.runs, k, l);
      ghost var s, e := abs.runs[k].start, abs.runs[k].End();
      var size := pf.size + l;
      absorbed := 0;
      if pf.next != null && pf.next.page == pf.page + size {
        var pt := pf.next;
        absorbed := abs.runs[k + 1].len;
        size := size + pt.size;
        Remove(pt, k + 1);
      }
      Resize(pf, pf.page, size, pf.pdir, k);
      Widened(old(Free()), s, e, l, absorbed);
    }

    /** "Prepend to entry". */
    method PrependTo(pf: PgFree, ptr: nat, l: nat, spi: PdInfo, ghost k: nat)
      requires Valid() && k < |abs.nodes| && pf == abs.nodes[k] && 0 < l && spi.idx == PiIdx(ptr)
      requires ptr + l == abs.runs[k].start && (0 < k ==> abs.runs[k - 1].End() < ptr)
      modifies this`abs, pf`page, pf`size, pf`pdir
      ensures Valid() && k < |abs.nodes| && abs.nodes[k] == pf && Nodes() == old(Nodes()) && pf.pdir == spi
      ensures abs.runs[k] == Run(ptr, old(abs.runs)[k].len + l)
      ensures Free() == old(Free()) + Range(ptr, ptr + l)
      ensures Total(abs.runs) == old(Total(abs.runs)) + l && old(abs.runs)[k].len <= old(Total(abs.runs))
    {
      hide Normal, Pages, Total, Range, PiIdx, Nodes;
      assert Range(abs.runs[k].End(), abs.runs[k].End()) == {} by { RangeSize(abs.runs[k].End(), abs.runs[k].End()); }
      Neighbours(abs.runs, k, 0);
      ghost var s, e := abs.runs[k].start, abs.runs[k].End();
      assert pf.size == e - s;
      hide Valid;
      Resize(pf, ptr, pf.size + l, spi, k);
      WidenedLow(old(Free()), ptr, s, e);
    }
  
    /** "Add to free-list": the four ways in which a freed run joins the list.  There is no
        fifth: the list is never found destroyed.  `px` becomes the entry only if the run
        touches no other entry. */
    method Insert(px: PgFree) returns (pf: PgFree, cachesize: nat, ghost index: nat, ghost absorbed: nat)
      requires Valid() && px !in Nodes() && 0 < px.size && px.pdir != null && px.pdir.idx == PiIdx(px.page)
      requires Range(px.page, px.page + px.size) !! Free()
      modifies this`abs, Nodes(), px`next, px`prev
      ensures Valid() && index < |abs.nodes| && pf == abs.nodes[index] && Nodes() <= old(Nodes()) + {px}
      ensures forall x {:trigger x.pdir} :: x in old(Nodes()) + {px} ==> x.pdir == old(x.pdir) || x.pdir == px.pdir
      ensures Free() == old(Free()) + Range(px.page, px.page + px.size)
      ensures abs.runs[index].start <= px.page && px.page + px.size <= abs.runs[index].End()
      ensures Total(abs.runs) == old(Total(abs.runs)) + px.size
      ensures cachesize + abs.runs[index].len == Total(abs.runs) + absorbed && cachesize <= old(Total(abs.runs))
      ensures absorbed == Absorbed(abs.runs[index], px.page, px.size)
      ensures pf == px <==> cachesize == old(Total(abs.runs))
      ensures pf == px ==> abs.runs[index] == Run(px.page, px.size)
    {
      hide Normal, Pages, Total, Range, PiIdx, Valid, NodeAt;
      absorbed := 0;
      var empty := IsEmpty();
      if empty {
        PutEntry(px, head, true, 0);
        return px, 0, 0, 0;
      }
      pf, cachesize, index := Locate(px.page);
      pf, cachesize, index, absorbed := Join(px, pf, cachesize, index);
    }

    /** The run of `px` joins the list where the search has stopped, at entry k. */
    method Join(px: PgFree, at: PgFree, total: nat, ghost k: nat) returns (pf: PgFree, cachesize: nat, ghost index: nat, ghost absorbed: nat)
      requires Valid() && px !in Nodes() && 0 < px.size && px.pdir != null && px.pdir.idx == PiIdx(px.page)
      requires Range(px.page, px.page + px.size) !! Free()
      requires k < |abs.nodes| == |abs.runs| && at == abs.nodes[k] && total == Total(abs.runs)
      requires 0 < k ==> abs.runs[k - 1].End() < px.page
      requires px.page <= abs.runs[k].End() || k + 1 == |abs.runs|
      modifies this`abs, Nodes(), px`next, px`prev
      ensures Valid() && index < |abs.nodes| && pf == abs.nodes[index] && Nodes() <= old(Nodes()) + {px}
      ensures forall x {:trigger x.pdir} :: x in old(Nodes()) + {px} ==> x.pdir == old(x.pdir) || x.pdir == px.pdir
      ensures Free() == old(Free()) + Range(px.page, px.page + px.size)
      ensures abs.runs[index].start <= px.page && px.page + px.size <= abs.runs[index].End()
      ensures Total(abs.runs) == old(Total(abs.runs)) + px.size
      ensures cachesize + abs.runs[index].len == Total(abs.runs) + absorbed && cachesize <= old(Total(abs.runs))
      ensures absorbed == Absorbed(abs.runs[index], px.page, px.size)
      ensures pf == px <==> cachesize == old(Total(abs.runs))
      ensures pf == px ==> abs.runs[index] == Run(px.page, px.size)
    {
      hide Normal, Pages, Total, Range, PiIdx, Valid, NodeAt;
      pf, cachesize, index, absorbed := at, total, k, 0;
      var ptr, l, tail := px.page, px.size, px.page + px.size;
      About(pf, index);
      Situation(abs.runs, Run(ptr, l), index);
      if pf.page > tail {
        PutEntry(px, pf, false, index);
        pf := px;
      } else if pf.page + pf.size == ptr {
        cachesize := cachesize - pf.size;
        absorbed := AppendTo(pf, l, index);
      } else if pf.page == tail {
        cachesize := cachesize - pf.size;
        PrependTo(pf, ptr, l, px.pdir, index);
      } else if pf.next == null {
        index := index + 1;
        PutEntry(px, pf, true, index);
        pf := px;
      } else {
        assert false;  // "freelist is destroyed"
      }
    }

    method IsEmpty() returns (b: bool)
      requires Valid()
      ensures b <==> abs.nodes == []
      ensures b ==> abs.runs == [] && Total(abs.runs) == 0
    {
      b := head.next == null;
    }
  }

  /** What is known about a run r that is not free, where the search for its place stops. */
  lemma Situation(runs: seq<Run>, r: Run, k: nat)
    requires Normal(runs) && k < |runs| && 0 < r.len && Range(r.start, r.End()) !! Pages(runs)
    requires 0 < k ==> runs[k - 1].End() < r.start
    requires r.start <= runs[k].End() || k + 1 == |runs|
    ensures runs[k].start > r.End() || runs[k].End() == r.start || runs[k].start == r.End() || (k + 1 == |runs| && runs[k].End() < r.start)
    ensures 0 < runs[k].len <= Total(runs)
  {
    Apart(runs, r, k);
    WithoutEntry(runs, k);
  }

  /** Entry k, the entries around it, and the l pages after it that are not free. */
  lemma Neighbours(runs: seq<Run>, k: nat, l: nat)
    requires Normal(runs) && k < |runs| && Range(runs[k].End(), runs[k].End() + l) !! Pages(runs)
    ensures 0 < runs[k].len && (0 < k ==> runs[k - 1].End() < runs[k].start)
    ensures k + 1 < |runs| ==> runs[k].End() + l <= runs[k + 1].start && runs[k].End() < runs[k + 1].start
    ensures k + 2 < |runs| ==> runs[k + 1].End() < runs[k + 2].start
    ensures Range(runs[k].start, runs[k].End()) <= Pages(runs) && runs[k].len <= Total(runs)
    ensures k + 1 < |runs| ==> Range(runs[k + 1].start, runs[k + 1].End()) <= Pages(runs) && runs[k].len + runs[k + 1].len <= Total(runs)
  {
    RunPages(runs, k);
    WithoutEntry(runs, k);
    if k + 1 < |runs| {
      RunPages(runs, k + 1);
      Apart(runs, Run(runs[k].End(), l), k + 1);
      var rest := runs[..k] + runs[k + 1..];
      WithoutEntry(rest, k);
      assert rest[k] == runs[k + 1];
    }
  }

  /** A run of pages that are not free lies on one side of entry i. */
  lemma Apart(runs: seq<Run>, r: Run, i: nat)
    requires Normal(runs) && i < |runs| && Range(r.start, r.End()) !! Pages(runs)
    ensures r.len == 0 || r.End() <= runs[i].start || runs[i].End() <= r.start
  {
    RunPages(runs, i);
    var s := runs[i].start;
    assert 0 < runs[i].len;
    assert s in Range(s, runs[i].End());
    assert r.start <= s < r.End() ==> s in Range(r.start, r.End());
    assert s <= r.start < runs[i].End() ==> r.start in Range(s, runs[i].End());
    assert 0 < r.len ==> r.start in Range(r.start, r.End());
  }

  lemma Widened(free: set<nat>, s: nat, e: nat, l: nat, more: nat)
    requires s <= e && Range(s, e) <= free && Range(e + l, e + l + more) <= free
    ensures (if more == 0 then free else free - Range(e + l, e + l + more)) - Range(s, e) + Range(s, e + l + more) == free + Range(e, e + l)
  {
  }

  lemma WidenedLow(free: set<nat>, p: nat, s: nat, e: nat)
    requires p <= s <= e && Range(s, e) <= free
    ensures free - Range(s, e) + Range(p, e) == free + Range(p, s)
  {
  }

  method LinkEntry(head: PgFree, px: PgFree, pf: PgFree, tail: bool, ghost nodes: seq<PgFree>, ghost runs: seq<Run>, ghost k: nat)
    requires Chain(head, nodes) && Describes(nodes, runs) && px !in nodes && px != head
    requires px.pdir != null && px.pdir.idx == PiIdx(px.page)
    requires if tail then k == |nodes| && pf == (if k == 0 then head else nodes[k - 1]) else k < |nodes| && pf == nodes[k]
    modifies head`next, nodes`next, nodes`prev, px`next, px`prev
    ensures Chain(head, nodes[..k] + [px] + nodes[k..])
    ensures Describes(nodes[..k] + [px] + nodes[k..], Inserted(runs, k, Run(px.page, px.size)))
  {
    hide Chain, PiIdx;
    if tail {
      assert nodes[..k] + [px] + nodes[k..] == nodes + [px];
      AppendNode(head, px, pf, nodes);
    } else {
      InsertNode(head, px, pf, nodes, k);
    }
  }
}
