/** The graph algorithms of scripts/maint/practracker/includes.py: which directories may
    include from which. */
module Includes {

  type Dir = string

  /** A dictionary from each directory to the list of those it uses.  A directory that is
      used need not be a key. */
  type Uses = map<Dir, seq<Dir>>

  predicate Edge(g: Uses, a: Dir, b: Dir) {
    a in g && b in g[a]
  }

  /** A walk along edges. */
  predicate IsPath(g: Uses, p: seq<Dir>) {
    p != [] && forall i {:trigger p[i]} :: 0 <= i < |p| - 1 ==> Edge(g, p[i], p[i + 1])
  }

  /** One or more edges lead from a to b. */
  ghost predicate Reaches(g: Uses, a: Dir, b: Dir) {
    exists p: seq<Dir> :: IsWalk(g, p, a, b)
  }

  ghost predicate IsWalk(g: Uses, p: seq<Dir>, a: Dir, b: Dir) {
    2 <= |p| && IsPath(g, p) && p[0] == a && p[|p| - 1] == b
  }

  lemma OneEdge(g: Uses, a: Dir, b: Dir)
    requires Edge(g, a, b)
    ensures Reaches(g, a, b)
  {
    assert IsWalk(g, [a, b], a, b);
  }

  lemma Joined(g: Uses, a: Dir, b: Dir, c: Dir)
    requires Reaches(g, a, b) && Reaches(g, b, c)
    ensures Reaches(g, a, c)
  {
    var p :| IsWalk(g, p, a, b);
    var q :| IsWalk(g, q, b, c);
    var r := p + q[1..];
    forall i {:trigger r[i]} | 0 <= i < |r| - 1
      ensures Edge(g, r[i], r[i + 1])
    {
      if i < |p| - 1 {
        assert Edge(g, p[i], p[i + 1]);
      } else {
        assert r[i] == q[i - |p| + 1] && r[i + 1] == q[i - |p| + 2];
      }
    }
    assert IsWalk(g, r, a, c);
  }

  // ----- closure

  /** The sets only hold what can be reached, and all that is used directly. */
  ghost predicate Sound(g: Uses, r: map<Dir, set<Dir>>) {
    && r.Keys == g.Keys
    && (forall k, v {:trigger v in r[k]} :: k in r && v in r[k] ==> Reaches(g, k, v))
    && (forall k, v {:trigger Edge(g, k, v)} :: Edge(g, k, v) ==> v in r[k])
  }

  /** The set of k contains those of its members. */
  ghost predicate ClosedAt(r: map<Dir, set<Dir>>, k: Dir) {
    k in r ==> forall v {:trigger v in r[k]} :: v in r[k] && v in r ==> r[v] <= r[k]
  }

  lemma {:induction false} ClosedReaches(g: Uses, r: map<Dir, set<Dir>>, p: seq<Dir>, a: Dir, b: Dir)
    requires Sound(g, r) && (forall k :: k in r ==> ClosedAt(r, k)) && IsWalk(g, p, a, b)
    ensures a in r && b in r[a]
  {
    assert Edge(g, p[0], p[1]);
    if |p| > 2 {
      var q := p[1..];
      assert forall i {:trigger q[i]} :: 0 <= i < |q| - 1 ==> q[i] == p[i + 1] && q[i + 1] == p[i + 2];
      ClosedReaches(g, r, q, p[1], b);
      assert ClosedAt(r, a) && p[1] in r[a];
    }
  }

  /** The pairs that are still missing, among all that there are: what makes the loop end. */
  ghost function Missing(r: map<Dir, set<Dir>>, all: set<Dir>): set<(Dir, Dir)> {
    set k, v | k in r && v in all && v !in r[k] :: (k, v)
  }

  ghost predicate Within(r: map<Dir, set<Dir>>, all: set<Dir>) {
    forall k {:trigger r[k]} :: k in r ==> r[k] <= all
  }

  /** Set by set, r has not lost anything. */
  ghost predicate Grew(r: map<Dir, set<Dir>>, r': map<Dir, set<Dir>>) {
    r.Keys == r'.Keys && forall k {:trigger r[k]} {:trigger r'[k]} :: k in r ==> r[k] <= r'[k]
  }

  lemma FewerMissing(r: map<Dir, set<Dir>>, r': map<Dir, set<Dir>>, all: set<Dir>)
    requires Grew(r, r') && r != r' && Within(r', all)
    ensures Missing(r', all) < Missing(r, all)
  {
    assert Missing(r', all) <= Missing(r, all);
    if forall k :: k in r ==> r'[k] <= r[k] {
      assert forall k :: k in r ==> r'[k] == r[k];
    }
    var k :| k in r && !(r'[k] <= r[k]);
    var v :| v in r'[k] && v !in r[k];
    assert (k, v) in Missing(r, all) && (k, v) !in Missing(r', all);
  }

  /** The set of k takes over the sets of all members that it had before. */
  method CloseNode(g: Uses, r0: map<Dir, set<Dir>>, k: Dir, ghost all: set<Dir>) returns (r: map<Dir, set<Dir>>)
    requires k in r0 && Sound(g, r0) && Within(r0, all)
    ensures Sound(g, r) && Within(r, all) && Grew(r0, r) && (r == r0 <==> |r[k]| == |r0[k]|)
    ensures r == r0 ==> ClosedAt(r, k)
  {
    hide Sound, Within, Grew;
    SameKeys(r0, r0);
    r := r0;
    var todo := r0[k];
    while todo != {}
      invariant todo <= r0[k] && Sound(g, r) && Within(r, all) && Grew(r0, r) && r - {k} == r0 - {k}
      invariant r.Keys == r0.Keys && r0[k] <= r[k]
      invariant forall v :: v in r0[k] - todo && v in r0 ==> r0[v] <= r[k]
      decreases |todo|
    {
      var v :| v in todo;
      todo := todo - {v};
      if v in r {
        Updated(g, r0, r, k, v, all);
        r := r[k := r[k] + r[v]];
      }
    }
    Larger(r0[k], r[k]);
    if r[k] == r0[k] {
      SameMap(r0, r, k);
    }
  }

  lemma Updated(g: Uses, r0: map<Dir, set<Dir>>, r: map<Dir, set<Dir>>, k: Dir, v: Dir, all: set<Dir>)
    requires Within(r, all) && Sound(g, r0) && Sound(g, r) && Grew(r0, r) && k in r && v in r0[k] && v in r && r - {k} == r0 - {k}
    ensures var r' := r[k := r[k] + r[v]]; Within(r', all) && Sound(g, r') && Grew(r0, r') && r' - {k} == r0 - {k} && r0[v] <= r'[k]
  {
    var r' := r[k := r[k] + r[v]];
    forall x | x in r'[k]
      ensures Reaches(g, k, x)
    {
      if x in r[v] {
        Joined(g, k, v, x);
      }
    }
  }

  lemma SameKeys(r: map<Dir, set<Dir>>, r': map<Dir, set<Dir>>)
    requires r == r'
    ensures Grew(r, r')
  {
  }

  lemma Larger(s: set<Dir>, t: set<Dir>)
    requires s <= t
    ensures |t| == |s| <==> t == s
  {
    assert t == s + (t - s);
  }

  lemma SameMap(r0: map<Dir, set<Dir>>, r: map<Dir, set<Dir>>, k: Dir)
    requires r.Keys == r0.Keys && k in r && r[k] == r0[k] && r - {k} == r0 - {k}
    ensures r == r0
  {
    forall x | x in r
      ensures r[x] == r0[x]
    {
      if x != k {
        assert x in r - {k} && (r - {k})[x] == r[x] && (r0 - {k})[x] == r0[x];
      }
    }
  }

  /** One turn of the outer loop. */
  method ClosePass(g: Uses, r0: map<Dir, set<Dir>>, ghost all: set<Dir>) returns (r: map<Dir, set<Dir>>, changed: bool)
    requires Sound(g, r0) && Within(r0, all)
    ensures Sound(g, r) && Within(r, all) && Grew(r0, r) && (changed <==> r != r0)
    ensures !changed ==> forall k :: k in r ==> ClosedAt(r, k)
  {
    r, changed := r0, false;
    var keys := r0.Keys;
    while keys != {}
      invariant keys <= r0.Keys && Sound(g, r) && Within(r, all) && Grew(r0, r) && (changed <==> r != r0)
      invariant !changed ==> forall k :: k in r0.Keys - keys ==> ClosedAt(r, k)
      decreases |keys|
    {
      var k :| k in keys;
      keys := keys - {k};
      var was := r;
      r := CloseNode(g, was, k, all);
      GrewOn(r0, was, r);
      if |was[k]| != |r[k]| {
        changed := true;
      }
    }
  }

  lemma GrewOn(a: map<Dir, set<Dir>>, b: map<Dir, set<Dir>>, c: map<Dir, set<Dir>>)
    requires Grew(a, b) && Grew(b, c)
    ensures Grew(a, c) && (c == a ==> b == a)
  {
    if c == a {
      forall k | k in a
        ensures b[k] == a[k]
      {
        assert a[k] <= b[k] <= c[k];
      }
    }
  }

  function SetOf(s: seq<Dir>): set<Dir> {
    set d | d in s
  }

  ghost function AllIn(g: Uses): set<Dir> {
    set k, v | k in g && v in g[k] :: v
  }

  /** `closure`: each set holds exactly what one or more edges lead to. */
  method Closure(g: Uses) returns (r: map<Dir, set<Dir>>)
    ensures r.Keys == g.Keys
    ensures forall a, b :: Reaches(g, a, b) <==> a in r && b in r[a]
  {
    r := map k | k in g :: SetOf(g[k]);
    ghost var all := AllIn(g);
    forall k, v | k in r && v in r[k]
      ensures Reaches(g, k, v)
    {
      OneEdge(g, k, v);
    }
    var changed := true;
    while changed
      invariant Sound(g, r) && Within(r, all)
      invariant !changed ==> forall k :: k in r ==> ClosedAt(r, k)
      decreases changed, Missing(r, all)
    {
      var was := r;
      r, changed := ClosePass(g, was, all);
      if changed {
        FewerMissing(was, r, all);
      }
    }
    forall a, b | Reaches(g, a, b)
      ensures a in r && b in r[a]
    {
      var p :| IsWalk(g, p, a, b);
      ClosedReaches(g, r, p, a, b);
    }
  }

  // ----- toposort

  /** n edges, all between keys, lead away from k. */
  ghost predicate Deep(g: Uses, k: Dir, n: nat)
    decreases n
  {
    k in g && (n == 0 || exists d :: Edge(g, k, d) && Deep(g, d, n - 1))
  }

  /** The members of level n: their longest dependency path has n edges. */
  ghost predicate AtLevel(g: Uses, k: Dir, n: nat) {
    Deep(g, k, n) && !Deep(g, k, n + 1)
  }

  lemma {:induction false} DeepDown(g: Uses, k: Dir, n: nat)
    requires Deep(g, k, n + 1)
    ensures Deep(g, k, n)
    decreases n
  {
    if n != 0 {
      var d :| Edge(g, k, d) && Deep(g, d, n);
      DeepDown(g, d, n - 1);
    }
  }

  lemma {:induction false} DeepDownTo(g: Uses, k: Dir, m: nat, n: nat)
    requires Deep(g, k, n) && m <= n
    ensures Deep(g, k, m)
  {
    if m < n {
      DeepDown(g, k, n - 1);
      DeepDownTo(g, k, m, n - 1);
    }
  }

  function Filtered(s: seq<Dir>, keys: set<Dir>): (t: seq<Dir>)
    ensures forall d :: d in t <==> d in s && d in keys
  {
    if s == [] then []
    else (if s[0] in keys then [s[0]] else []) + Filtered(s[1..], keys)
  }

  /** What is left of g after n levels were taken out: the keys with longer paths, with
      lists that are right as far as those keys are concerned. */
  ghost predicate Rest(g: Uses, left: Uses, n: nat) {
    && (forall k :: k in left <==> Deep(g, k, n))
    && (forall k, d :: k in left && d in left ==> (d in left[k] <==> d in g[k]))
  }

  /** A list without repetitions of exactly the members of level n. */
  ghost predicate IsLevel(g: Uses, level: seq<Dir>, n: nat) {
    && (forall k :: k in level <==> AtLevel(g, k, n))
    && (forall i, j :: 0 <= i < j < |level| ==> level[i] != level[j])
  }

  /** The first loop of a turn: all keys but `keys` were handled. */
  ghost predicate Filtering(was: Uses, adj: Uses, keys: set<Dir>, level: seq<Dir>) {
    && keys <= adj.Keys == was.Keys
    && (forall k {:trigger adj[k]} :: k in adj ==> adj[k] == if k in keys then was[k] else Filtered(was[k], was.Keys))
    && (forall k {:trigger k in level} :: k in level <==> k in adj && k !in keys && adj[k] == [])
    && (forall i, j :: 0 <= i < j < |level| ==> level[i] != level[j])
  }

  lemma NothingFiltered(adj: Uses)
    ensures Filtering(adj, adj, adj.Keys, [])
  {
  }

  lemma FilterTurn(was: Uses, adj: Uses, keys: set<Dir>, level: seq<Dir>, k: Dir)
    requires Filtering(was, adj, keys, level) && k in keys
    ensures var f := Filtered(adj[k], adj.Keys);
            Filtering(was, adj[k := f], keys - {k}, if f == [] then level + [k] else level)
  {
    hide Filtered;
    var f := Filtered(adj[k], adj.Keys);
    var adj', level' := adj[k := f], if f == [] then level + [k] else level;
    assert adj'.Keys == adj.Keys;
    assert k !in level;
    forall d {:trigger d in level'}
      ensures d in level' <==> d in adj' && d !in keys - {k} && adj'[d] == []
    {
      assert d in level' <==> d in level || (f == [] && d == k);
    }
  }

  lemma AllFiltered(was: Uses, adj: Uses, level: seq<Dir>)
    requires Filtering(was, adj, {}, level)
    ensures adj.Keys == was.Keys && forall k {:trigger adj[k]} :: k in adj ==> adj[k] == Filtered(was[k], adj.Keys)
    ensures forall k :: k in level <==> k in adj && adj[k] == []
    ensures forall i, j :: 0 <= i < j < |level| ==> level[i] != level[j]
  {
  }

  class Graph {
    var adj: Uses

    constructor (adj: Uses)
      ensures this.adj == adj
    {
      this.adj := adj;
    }

    /** A turn of the loop of `toposort`: drops the uses of directories that are gone, and
        then the directories that use no other any more. */
    method TakeLevel(ghost g: Uses, ghost n: nat) returns (level: seq<Dir>)
      requires Rest(g, adj, n)
      modifies this
      ensures Rest(g, adj, n + 1) && IsLevel(g, level, n)
    {
      hide Rest, IsLevel, Filtered;
      level := FilterAll();
      DeleteAll(level);
      LevelTaken(g, old(adj), adj, level, n);
    }

    method FilterAll() returns (level: seq<Dir>)
      modifies this
      ensures adj.Keys == old(adj.Keys) && forall k {:trigger adj[k]} :: k in adj ==> adj[k] == Filtered(old(adj)[k], adj.Keys)
      ensures forall k :: k in level <==> k in adj && adj[k] == []
      ensures forall i, j :: 0 <= i < j < |level| ==> level[i] != level[j]
    {
      hide Filtered, Filtering;
      level := [];
      var keys := adj.Keys;
      NothingFiltered(adj);
      while keys != {}
        invariant Filtering(old(adj), adj, keys, level) && keys <= adj.Keys
        decreases |keys|
      {
        var k :| k in keys;
        FilterTurn(old(adj), adj, keys, level, k);
        keys := keys - {k};
        adj := adj[k := Filtered(adj[k], adj.Keys)];
        if adj[k] == [] {
          level := level + [k];
        }
      }
      AllFiltered(old(adj), adj, level);
    }

    /** Deletes the nodes of a level. */
    method DeleteAll(level: seq<Dir>)
      requires (forall k :: k in level ==> k in adj) && forall i, j :: 0 <= i < j < |level| ==> level[i] != level[j]
      modifies this
      ensures adj == old(adj) - SetOf(level)
    {
      var i := 0;
      assert adj == old(adj) - SetOf(level[..0]);
      while i < |level|
        invariant 0 <= i <= |level| && adj == old(adj) - SetOf(level[..i])
      {
        assert SetOf(level[..i + 1]) == SetOf(level[..i]) + {level[i]};
        assert level[i] in adj;  // no KeyError
        adj := adj - {level[i]};
        i := i + 1;
      }
      assert level[..i] == level;
    }

    /** `toposort`. */
    method TopoSort(limit: nat) returns (levels: seq<seq<Dir>>)
      modifies this
      ensures forall n :: 0 <= n < |levels| ==> IsLevel(old(adj), levels[n], n)
      ensures Rest(old(adj), adj, |levels|) && (adj == map[] || |levels| == limit + 1)
      ensures limit + 1 >= |old(adj)| ==> (adj == map[] <==> Acyclic(old(adj)))
    {
      ghost var g := adj;
      levels := [];
      var n := 0;
      while adj != map[]
        invariant n == |levels| <= limit && Rest(g, adj, n)
        invariant forall m :: 0 <= m < n ==> IsLevel(g, levels[m], m)
        decreases limit + 1 - n
      {
        var level := TakeLevel(g, n);
        levels := levels + [level];
        n := n + 1;
        if n > limit {
          break;
        }
      }
      Emptied(g, adj, n, limit);
    }
  }

  lemma LevelTaken(g: Uses, left: Uses, left': Uses, level: seq<Dir>, n: nat)
    requires Rest(g, left, n) && left'.Keys == left.Keys - SetOf(level)
    requires forall k {:trigger left'[k]} :: k in left' ==> left'[k] == Filtered(left[k], left.Keys)
    requires forall k :: k in level <==> k in left && Filtered(left[k], left.Keys) == []
    requires forall i, j :: 0 <= i < j < |level| ==> level[i] != level[j]
    ensures Rest(g, left', n + 1) && IsLevel(g, level, n)
  {
    forall k
      ensures k in level <==> AtLevel(g, k, n)
      ensures k in left' <==> Deep(g, k, n + 1)
    {
      if k in left {
        var f := Filtered(left[k], left.Keys);
        if f != [] {
          var d := f[0];
          assert d in f && Edge(g, k, d) && Deep(g, d, n);
        }
        if Deep(g, k, n + 1) {
          var d :| Edge(g, k, d) && Deep(g, d, n);
          assert d in f;
        }
      } else if Deep(g, k, n + 1) {
        DeepDown(g, k, n);
      }
    }
  }

  // ----- cycles

  ghost predicate Acyclic(g: Uses) {
    forall k :: k in g ==> !Reaches(g, k, k)
  }

  /** A path in front of a deep node is deep. */
  lemma {:induction false} WalkDeep(g: Uses, p: seq<Dir>, m: nat)
    requires IsPath(g, p) && Deep(g, p[|p| - 1], m)
    ensures Deep(g, p[0], m + |p| - 1)
  {
    if |p| > 1 {
      assert Edge(g, p[0], p[1]);
      Tail(g, p);
      WalkDeep(g, p[1..], m);
    }
  }

  lemma Tail(g: Uses, p: seq<Dir>)
    requires IsPath(g, p) && |p| > 1
    ensures IsPath(g, p[1..])
  {
    var q := p[1..];
    assert forall i {:trigger q[i]} :: 0 <= i < |q| - 1 ==> q[i] == p[i + 1] && q[i + 1] == p[i + 2];
  }

  lemma {:induction false} CycleDeep(g: Uses, k: Dir, n: nat)
    requires k in g && Reaches(g, k, k)
    ensures Deep(g, k, n)
  {
    if n != 0 {
      CycleDeep(g, k, n - 1);
      var p :| IsWalk(g, p, k, k);
      WalkDeep(g, p, n - 1);
      DeepDownTo(g, k, n, n - 1 + |p| - 1);
    }
  }

  lemma {:induction false} DeepWalk(g: Uses, k: Dir, n: nat) returns (p: seq<Dir>)
    requires Deep(g, k, n)
    ensures IsPath(g, p) && |p| == n + 1 && p[0] == k && forall x :: x in p ==> x in g
    decreases n
  {
    if n == 0 {
      p := [k];
    } else {
      var d :| Edge(g, k, d) && Deep(g, d, n - 1);
      var q := DeepWalk(g, d, n - 1);
      p := [k] + q;
      assert forall i {:trigger p[i]} :: 0 < i < |p| - 1 ==> p[i] == q[i - 1] && p[i + 1] == q[i];
    }
  }

  lemma {:induction false} Distinct(p: seq<Dir>, s: set<Dir>)
    requires (forall x :: x in p ==> x in s) && forall i, j :: 0 <= i < j < |p| ==> p[i] != p[j]
    ensures |p| <= |s|
  {
    if p != [] {
      Distinct(p[1..], s - {p[0]});
    }
  }

  /** A path with more nodes than there are goes round. */
  lemma GoesRound(g: Uses, k: Dir, n: nat) returns (x: Dir)
    requires Deep(g, k, n) && |g| <= n
    ensures x in g && Reaches(g, x, x)
  {
    hide IsPath, Deep, Reaches;
    var p := DeepWalk(g, k, n);
    if forall i, j :: 0 <= i < j < |p| ==> p[i] != p[j] {
      Distinct(p, g.Keys);
    }
    var i, j :| 0 <= i < j < |p| && p[i] == p[j];
    x := p[i];
    Between(g, p, i, j);
  }

  /** A part of a path. */
  lemma Between(g: Uses, p: seq<Dir>, i: nat, j: nat)
    requires IsPath(g, p) && i < j < |p|
    ensures Reaches(g, p[i], p[j])
  {
    var q := p[i..j + 1];
    assert forall a {:trigger q[a]} :: 0 <= a < |q| - 1 ==> q[a] == p[i + a] && q[a + 1] == p[i + a + 1];
    assert IsWalk(g, q, p[i], p[j]);
  }

  /** With a limit that lets every key have a level of its own, everything is sorted
      exactly if there is no cycle. */
  lemma Emptied(g: Uses, left: Uses, n: nat, limit: nat)
    requires Rest(g, left, n) && (left == map[] || n == limit + 1)
    ensures limit + 1 >= |g| ==> (left == map[] <==> Acyclic(g))
  {
    if left == map[] {
      forall k | k in g
        ensures !Reaches(g, k, k)
      {
        assert k in left <==> Deep(g, k, n);
        if Reaches(g, k, k) {
          CycleDeep(g, k, n);
        }
      }
    } else if limit + 1 >= |g| {
      var k :| k in left;
      var x := GoesRound(g, k, n);
    }
  }

  // ----- check_subsys_file

  function Flat(levels: seq<seq<Dir>>): seq<Dir> {
    if levels == [] then [] else Flat(levels[..|levels| - 1]) + levels[|levels| - 1]
  }

  /** No directory uses, through any number of others, one that comes after it. */
  ghost predicate NoInversion(g: Uses, order: seq<Dir>) {
    forall i, j :: 0 <= i < j < |order| ==> !Reaches(g, order[i], order[j])
  }

  /** The loops of `check_subsys_file` over the lines of the file. */
  method CheckOrder(g: Uses, order: seq<Dir>) returns (ok: bool)
    requires forall i :: 0 <= i < |order| - 1 ==> order[i] in g  // the last one is never looked up
    ensures ok <==> NoInversion(g, order)
  {
    var closed := Closure(g);
    ok := true;
    var j := 0;
    while j < |order|
      invariant 0 <= j <= |order|
      invariant ok <==> forall a, b :: 0 <= a < b < j ==> !Reaches(g, order[a], order[b])
    {
      var i := 0;
      while i < j
        invariant 0 <= i <= j
        invariant ok <==> (forall a, b :: 0 <= a < b < j ==> !Reaches(g, order[a], order[b])) && forall a :: 0 <= a < i ==> !Reaches(g, order[a], order[j])
      {
        if order[j] in closed[order[i]] {
          ok := false;
        }
        i := i + 1;
      }
      j := j + 1;
    }
  }

  /** Position i of the flattened levels is in some level, and later positions are not in
      earlier levels. */
  lemma {:induction false} FlatLevel(g: Uses, levels: seq<seq<Dir>>, i: nat) returns (n: nat)
    requires i < |Flat(levels)| && forall m :: 0 <= m < |levels| ==> IsLevel(g, levels[m], m)
    ensures n < |levels| && AtLevel(g, Flat(levels)[i], n)
    ensures |Flat(levels[..n])| <= i < |Flat(levels[..n + 1])|
  {
    var front := levels[..|levels| - 1];
    if i < |Flat(front)| {
      n := FlatLevel(g, front, i);
      assert levels[..n] == front[..n] && levels[..n + 1] == front[..n + 1];
    } else {
      n := |levels| - 1;
      assert levels[..n + 1] == levels;
      assert Flat(levels)[i] in levels[n];
    }
  }

  lemma {:induction false} FlatGrows(levels: seq<seq<Dir>>, m: nat, n: nat)
    requires m <= n <= |levels|
    ensures |Flat(levels[..m])| <= |Flat(levels[..n])|
  {
    if m < n {
      FlatGrows(levels, m, n - 1);
      assert levels[..n][..n - 1] == levels[..n - 1];
    }
  }

  lemma NotReached(g: Uses, a: Dir, b: Dir, m: nat, n: nat)
    requires AtLevel(g, a, m) && AtLevel(g, b, n) && m <= n
    ensures !Reaches(g, a, b)
  {
    if Reaches(g, a, b) {
      var p :| IsWalk(g, p, a, b);
      WalkDeep(g, p, n);
      DeepDownTo(g, a, m + 1, n + |p| - 1);
    }
  }

  /** The levels of `toposort`, one after the other, never trip the check. */
  lemma SortedPasses(g: Uses, levels: seq<seq<Dir>>)
    requires forall m :: 0 <= m < |levels| ==> IsLevel(g, levels[m], m)
    ensures NoInversion(g, Flat(levels))
  {
    hide Flat, IsLevel, Deep;
    var order := Flat(levels);
    forall i, j | 0 <= i < j < |order|
      ensures !Reaches(g, order[i], order[j])
    {
      var m := FlatLevel(g, levels, i);
      var n := FlatLevel(g, levels, j);
      if n < m {
        FlatGrows(levels, n + 1, m);
      }
      NotReached(g, order[i], order[j], m, n);
    }
  }
}
