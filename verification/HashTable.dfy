/** The intrusive chaining hash table of src/ext/ht.h. */
module HashTable {

  /** A stored structure together with its HT_ENTRY.  `key` is what the equality
      function compares, so equal elements are elements with equal keys. */
  class Elem<K> {
    const key: K
    var next: Elem?<K>  // hte_next
    var hash: nat       // hte_hash
    /** The bucket whose chain holds the element. */
    ghost var bucket: nat

    constructor (k: K)
      ensures key == k && next == null
    {
      key, next, hash, bucket := k, null, 0, 0;
    }
  }

  /** The address of an element pointer: `&hth_table[b]` or `&e->hte_next`. */
  datatype Slot<K> = Bucket(b: nat) | NextOf(e: Elem<K>)

  type Chains<K> = seq<seq<Elem<K>>>

  ghost function At<K>(c: seq<Elem<K>>, k: int): Elem?<K> {
    if 0 <= k < |c| then c[k] else null
  }

  /** `b` and `i` are a position of `chains`, possibly one past the end of a chain. */
  ghost predicate InRange<K>(chains: Chains<K>, b: int, i: int) {
    0 <= b < |chains| && 0 <= i <= |chains[b]|
  }

  ghost function SlotAt<K>(chains: Chains<K>, b: nat, i: nat): Slot<K>
    requires InRange(chains, b, i)
  {
    if i == 0 then Bucket(b) else NextOf(chains[b][i - 1])
  }

  function Without<T>(s: seq<T>, i: nat): seq<T>
    requires i < |s|
  {
    s[..i] + s[i + 1..]
  }

  ghost predicate Distinct<T>(c: seq<T>) {
    forall i, j :: 0 <= i < j < |c| ==> c[i] != c[j]
  }

  /** The chains are laid out in memory exactly as `chains` says, and hold `elems`. */
  ghost predicate Shape<K(!new)>(table: array<Elem?<K>>, chains: Chains<K>, elems: set<Elem<K>>)
    reads table, elems`next, elems`bucket
  {
    && |chains| == table.Length
    && (forall b {:trigger table[b]} :: 0 <= b < |chains| ==> table[b] == At(chains[b], 0))
    && (forall b, i {:trigger chains[b][i]} :: 0 <= b < |chains| && 0 <= i < |chains[b]| ==>
          chains[b][i] in elems && chains[b][i].bucket == b)
    && (forall b, i {:trigger chains[b][i].next} :: 0 <= b < |chains| && 0 <= i < |chains[b]| ==>
          chains[b][i] in elems && chains[b][i].next == At(chains[b], i + 1))
    && (forall e {:trigger e.bucket} :: e in elems ==> e.bucket < |chains| && e in chains[e.bucket])
  }

  /** A chain that ends in NULL holds no element twice. */
  lemma ChainsDistinct<K(!new)>(table: array<Elem?<K>>, chains: Chains<K>, elems: set<Elem<K>>, b: nat)
    requires Shape(table, chains, elems) && b < |chains|
    ensures Distinct(chains[b])
  {
    var c := chains[b];
    forall i, j | 0 <= i < j < |c|
      ensures c[i] != c[j]
    {
      NotTwice(table, chains, elems, b, i, j);
    }
  }

  lemma {:induction false} NotTwice<K(!new)>(table: array<Elem?<K>>, chains: Chains<K>, elems: set<Elem<K>>, b: nat, i: nat, j: nat)
    requires Shape(table, chains, elems) && b < |chains| && i < j < |chains[b]|
    ensures chains[b][i] != chains[b][j]
    decreases |chains[b]| - j
  {
    if chains[b][i] == chains[b][j] {
      assert chains[b][i].next == chains[b][j].next;
      if j + 1 < |chains[b]| {
        NotTwice(table, chains, elems, b, i + 1, j + 1);
      }
    }
  }

  /** The pointer that a slot holds. */
  function Deref<K>(table: array<Elem?<K>>, slot: Slot<K>): Elem?<K>
    requires slot.Bucket? ==> slot.b < table.Length
    reads table, if slot.NextOf? then {slot.e} else {}
  {
    match slot case Bucket(b) => table[b] case NextOf(e) => e.next
  }

  /** Makes the slot skip the element at position i of chain b. */
  method Unlink<K(!new)>(table: array<Elem?<K>>, slot: Slot<K>, ghost chains: Chains<K>, ghost elems: set<Elem<K>>, ghost b: nat, ghost i: nat)
    returns (e: Elem<K>, ghost chains': Chains<K>)
    requires Shape(table, chains, elems)
    requires b < |chains| && i < |chains[b]| && slot == SlotAt(chains, b, i)
    modifies table, elems`next
    ensures e == chains[b][i] && e in elems && e.next == old(e.next)
    ensures chains' == chains[b := Without(chains[b], i)]
    ensures Shape(table, chains', elems - {e})
  {
    match slot {
      case Bucket(k) =>
        e, chains' := UnlinkFirst(table, k, chains, elems);
      case NextOf(p) =>
        e, chains' := UnlinkAfter(table, p, chains, elems, b, i);
    }
  }

  method UnlinkFirst<K(!new)>(table: array<Elem?<K>>, b: nat, ghost chains: Chains<K>, ghost elems: set<Elem<K>>)
    returns (e: Elem<K>, ghost chains': Chains<K>)
    requires Shape(table, chains, elems)
    requires b < |chains| && 0 < |chains[b]|
    modifies table
    ensures e == chains[b][0] && e in elems
    ensures chains' == chains[b := Without(chains[b], 0)]
    ensures Shape(table, chains', elems - {e})
  {
    ChainsDistinct(table, chains, elems, b);
    e := table[b];
    table[b] := e.next;
    chains' := chains[b := Without(chains[b], 0)];
  }

  method UnlinkAfter<K(!new)>(table: array<Elem?<K>>, p: Elem<K>, ghost chains: Chains<K>, ghost elems: set<Elem<K>>, ghost b: nat, ghost i: nat)
    returns (e: Elem<K>, ghost chains': Chains<K>)
    requires Shape(table, chains, elems)
    requires b < |chains| && 0 < i < |chains[b]| && p == chains[b][i - 1]
    modifies p`next
    ensures e == chains[b][i] && e in elems && e != p
    ensures chains' == chains[b := Without(chains[b], i)]
    ensures Shape(table, chains', elems - {e})
  {
    ChainsDistinct(table, chains, elems, b);
    e := p.next;
    p.next := e.next;
    chains' := chains[b := Without(chains[b], i)];
  }

  /** Puts e in front of chain b. */
  method PushFront<K(!new)>(table: array<Elem?<K>>, b: nat, e: Elem<K>, ghost chains: Chains<K>, ghost elems: set<Elem<K>>)
    returns (ghost chains': Chains<K>)
    requires Shape(table, chains, elems) && e !in elems && b < table.Length
    modifies table, e`next, e`bucket
    ensures chains' == chains[b := [e] + chains[b]] && e.bucket == b
    ensures Shape(table, chains', elems + {e})
  {
    e.next := table[b];
    table[b] := e;
    e.bucket := b;
    chains' := chains[b := [e] + chains[b]];
  }

  /** Puts elm in the place of the element that the slot points at, which loses its link. */
  method SwapIn<K(!new)>(table: array<Elem?<K>>, slot: Slot<K>, elm: Elem<K>, ghost chains: Chains<K>, ghost elems: set<Elem<K>>, ghost b: nat, ghost i: nat)
    returns (r: Elem<K>, ghost chains': Chains<K>)
    requires Shape(table, chains, elems) && elm !in elems
    requires b < |chains| && i < |chains[b]| && slot == SlotAt(chains, b, i)
    modifies table, elems`next, elm`next, elm`bucket
    ensures r == chains[b][i] && r in elems && r.next == null && elm.bucket == b
    ensures chains' == chains[b := chains[b][i := elm]]
    ensures Shape(table, chains', elems - {r} + {elm})
  {
    match slot {
      case Bucket(k) =>
        r, chains' := SwapFirst(table, k, elm, chains, elems);
      case NextOf(p) =>
        r, chains' := SwapAfter(table, p, elm, chains, elems, b, i);
    }
  }

  method SwapFirst<K(!new)>(table: array<Elem?<K>>, b: nat, elm: Elem<K>, ghost chains: Chains<K>, ghost elems: set<Elem<K>>)
    returns (r: Elem<K>, ghost chains': Chains<K>)
    requires Shape(table, chains, elems) && elm !in elems && b < |chains| && 0 < |chains[b]|
    modifies table, elems`next, elm`next, elm`bucket
    ensures r == chains[b][0] && r in elems && r.next == null && elm.bucket == b
    ensures chains' == chains[b := chains[b][0 := elm]]
    ensures Shape(table, chains', elems - {r} + {elm})
  {
    ChainsDistinct(table, chains, elems, b);
    ChainMembers(table, chains, elems, b, 0, elm);
    r := table[b];
    table[b] := elm;
    elm.next := r.next;
    r.next := null;
    elm.bucket := b;
    chains' := chains[b := chains[b][0 := elm]];
  }

  method SwapAfter<K(!new)>(table: array<Elem?<K>>, p: Elem<K>, elm: Elem<K>, ghost chains: Chains<K>, ghost elems: set<Elem<K>>, ghost b: nat, ghost i: nat)
    returns (r: Elem<K>, ghost chains': Chains<K>)
    requires Shape(table, chains, elems) && elm !in elems && b < |chains| && 0 < i < |chains[b]| && p == chains[b][i - 1]
    modifies elems`next, elm`next, elm`bucket
    ensures r == chains[b][i] && r in elems && r.next == null && elm.bucket == b
    ensures chains' == chains[b := chains[b][i := elm]]
    ensures Shape(table, chains', elems - {r} + {elm})
  {
    ChainsDistinct(table, chains, elems, b);
    ChainMembers(table, chains, elems, b, i, elm);
    r := p.next;
    p.next := elm;
    elm.next := r.next;
    r.next := null;
    elm.bucket := b;
    chains' := chains[b := chains[b][i := elm]];
  }

  /** With elm for the element at position i of chain b, the others are still in their chains. */
  lemma ChainMembers<K(!new)>(table: array<Elem?<K>>, chains: Chains<K>, elems: set<Elem<K>>, b: nat, i: nat, elm: Elem<K>)
    requires Shape(table, chains, elems) && b < |chains| && i < |chains[b]|
    ensures var chains' := chains[b := chains[b][i := elm]];
            elm in chains'[b] && forall x {:trigger x.bucket} :: x in elems && x != chains[b][i] ==> x in chains'[x.bucket]
  {
    var chains' := chains[b := chains[b][i := elm]];
    assert chains'[b][i] == elm;
    forall x {:trigger x.bucket} | x in elems && x != chains[b][i]
      ensures x in chains'[x.bucket]
    {
      var j :| 0 <= j < |chains[x.bucket]| && chains[x.bucket][j] == x;
      assert chains'[x.bucket][j] == x;
    }
  }

  /** The memory once `elm`, with the link it had, hangs on the end of chain b. */
  ghost predicate Hung<K(!new)>(table: array<Elem?<K>>, chains: Chains<K>, b: nat, elm: Elem<K>)
    reads table, elm, set k, i | 0 <= k < |chains| && 0 <= i < |chains[k]| :: chains[k][i]
  {
    && |chains| == table.Length && b < |chains|
    && (forall k {:trigger table[k]} :: 0 <= k < |chains| ==> table[k] == if k == b then At(chains[b] + [elm], 0) else At(chains[k], 0))
    && (forall k, i {:trigger chains[k][i].next} :: 0 <= k < |chains| && 0 <= i < |chains[k]| ==>
          chains[k][i].next == if k == b then At(chains[b] + [elm], i + 1) else At(chains[k], i + 1))
  }

  /** However that memory is read as chains, the old elements are in them. */
  lemma {:induction false} HungPrefix<K(!new)>(table: array<Elem?<K>>, chains: Chains<K>, b: nat, elm: Elem<K>,
                                               chains': Chains<K>, elems': set<Elem<K>>, k: nat, i: nat)
    requires Hung(table, chains, b, elm) && Shape(table, chains', elems') && k < |chains| && i < |chains[k]|
    ensures i < |chains'[k]| && chains'[k][i] == chains[k][i]
  {
    if i == 0 {
      assert table[k] == chains[k][0];
    } else {
      HungPrefix(table, chains, b, elm, chains', elems', k, i - 1);
      assert chains[k][i - 1].next == chains[k][i];
      assert chains'[k][i - 1].next == At(chains'[k], i);
    }
  }

  /** And so are `elm` and the element after it. */
  lemma HungLonger<K(!new)>(table: array<Elem?<K>>, chains: Chains<K>, b: nat, elm: Elem<K>, chains': Chains<K>, elems': set<Elem<K>>, k: nat)
    requires Hung(table, chains, b, elm) && Shape(table, chains', elems') && k < |chains| && elm.next != null
    ensures |chains[k]| + (if k == b then 2 else 0) <= |chains'[k]|
  {
    var n := |chains[k]|;
    if n > 0 {
      HungPrefix(table, chains, b, elm, chains', elems', k, n - 1);
    }
    if k == b {
      if n == 0 {
        assert table[b] == elm;
      } else {
        assert chains[b][n - 1].next == elm;
        assert chains'[b][n - 1].next == At(chains'[b], n);
      }
      assert chains'[b][n] == elm;
      assert chains'[b][n].next == At(chains'[b], n + 1);
    }
  }

  lemma {:induction false} HungTotal<K(!new)>(table: array<Elem?<K>>, chains: Chains<K>, b: nat, elm: Elem<K>, chains': Chains<K>, elems': set<Elem<K>>, n: nat)
    requires Hung(table, chains, b, elm) && Shape(table, chains', elems') && n <= |chains| && elm.next != null
    ensures Total(chains, n) + (if b < n then 2 else 0) <= Total(chains', n)
  {
    if n != 0 {
      HungTotal(table, chains, b, elm, chains', elems', n - 1);
      HungLonger(table, chains, b, elm, chains', elems', n - 1);
    }
  }

  /** Makes the slot at the end of a chain point at elm.  If elm has a link of its own, the memory is no
      proper set of chains with one more element, however it is read. */
  method Append<K(!new)>(table: array<Elem?<K>>, slot: Slot<K>, elm: Elem<K>, ghost chains: Chains<K>, ghost elems: set<Elem<K>>, ghost b: nat)
    returns (ghost chains': Chains<K>)
    requires Shape(table, chains, elems) && elm !in elems
    requires b < |chains| && slot == SlotAt(chains, b, |chains[b]|)
    modifies table, elems`next, elm`bucket
    ensures chains' == chains[b := chains[b] + [elm]] && elm.bucket == b
    ensures elm.next == null ==> Shape(table, chains', elems + {elm})
    ensures elm.next != null ==>
              forall cs: Chains<K>, es: set<Elem<K>> {:trigger Shape(table, cs, es)} :: Shape(table, cs, es) ==> |elems| + 2 <= |es|
  {
    ChainsDistinct(table, chains, elems, b);
    ShapeCount(table, chains, elems);
    match slot {
      case Bucket(k) => table[k] := elm;
      case NextOf(p) => p.next := elm;
    }
    elm.bucket := b;
    chains' := chains[b := chains[b] + [elm]];
    assert Hung(table, chains, b, elm);
    if elm.next != null {
      hide Hung, Shape;
      forall cs: Chains<K>, es: set<Elem<K>> {:trigger Shape(table, cs, es)} | Shape(table, cs, es)
        ensures |elems| + 2 <= |es|
      {
        HungCount(table, chains, b, elm, cs, es);
      }
    }
  }

  lemma HungCount<K(!new)>(table: array<Elem?<K>>, chains: Chains<K>, b: nat, elm: Elem<K>, chains': Chains<K>, elems': set<Elem<K>>)
    requires Hung(table, chains, b, elm) && Shape(table, chains', elems') && elm.next != null
    ensures Total(chains, |chains|) + 2 <= |elems'|
  {
    HungTotal(table, chains, b, elm, chains', elems', |chains|);
    ShapeCount(table, chains', elems');
  }

  function BucketOf(hash: nat, len: nat): (b: nat)
    requires 0 < len
    ensures b < len
  {
    hash % len
  }

  /** Every element is where a table of length `len` must have it. */
  ghost predicate Placed<K(!new)>(elems: set<Elem<K>>, len: nat)
    requires 0 < len
    reads elems`hash, elems`bucket
  {
    forall e :: e in elems ==> e.bucket == BucketOf(e.hash, len)
  }

  /** Every cached hash is right, and every element is in the bucket of its hash. */
  ghost predicate Hashes<K(!new)>(elems: set<Elem<K>>, hashfn: K -> nat, len: nat)
    reads elems`hash, elems`bucket
  {
    && (forall e {:trigger e.hash} :: e in elems ==> e.hash == hashfn(e.key))
    && (len == 0 || Placed(elems, len))
  }

  lemma HashesAdded<K(!new)>(elems: set<Elem<K>>, hashfn: K -> nat, len: nat, elm: Elem<K>)
    requires Hashes(elems, hashfn, len) && 0 < len && elm.hash == hashfn(elm.key) && elm.bucket == BucketOf(elm.hash, len)
    ensures Hashes(elems + {elm}, hashfn, len)
  {
  }

  lemma HashesFewer<K(!new)>(elems: set<Elem<K>>, hashfn: K -> nat, len: nat, elems': set<Elem<K>>)
    requires Hashes(elems, hashfn, len) && elems' <= elems
    ensures Hashes(elems', hashfn, len)
  {
  }

  // ----- the two rehashes of HT_GROW

  /** Where the elements were when the copying rehash began. */
  ghost predicate WasAt<K(!new)>(chains: Chains<K>, home: map<Elem<K>, nat>) {
    && (forall b, i {:trigger chains[b][i]} :: 0 <= b < |chains| && 0 <= i < |chains[b]| ==>
          chains[b][i] in home && home[chains[b][i]] == b)
    && (forall e {:trigger home[e]} :: e in home ==> home[e] < |chains| && e in chains[home[e]])
  }

  /** The chains from `b` on (in chain `b`: from `i` on) still have their old links. */
  ghost predicate Untouched<K(!new)>(chains: Chains<K>, b: nat, i: nat)
    reads set k, j | 0 <= k < |chains| && 0 <= j < |chains[k]| :: chains[k][j]
  {
    forall k, j {:trigger chains[k][j].next} :: b <= k < |chains| && 0 <= j < |chains[k]| && (k == b ==> i <= j) ==>
      chains[k][j].next == At(chains[k], j + 1)
  }

  /** How far the copying rehash has come: the elements before position i of old chain b
      are in the new table and in their new bucket, the others have not been touched. */
  ghost predicate Copied<K(!new)>(newTable: array<Elem?<K>>, newChains: Chains<K>, done: set<Elem<K>>,
                                  chains: Chains<K>, home: map<Elem<K>, nat>, b: nat, i: nat)
    requires 0 < newTable.Length && InRange(chains, b, i)
    reads newTable, done, set k, j | 0 <= k < |chains| && 0 <= j < |chains[k]| :: chains[k][j]
  {
    && Shape(newTable, newChains, done)
    && done <= home.Keys
    && (forall e :: e in home && home[e] != b ==> (e in done <==> home[e] < b))
    && (forall j :: 0 <= j < |chains[b]| ==> (chains[b][j] in done <==> j < i))
    && Placed(done, newTable.Length)
    && Untouched(chains, b, i)
  }

  /** One turn of the inner loop of the copying rehash. */
  method CopyElem<K(!new)>(elm: Elem<K>, newTable: array<Elem?<K>>, ghost newChains: Chains<K>, ghost done: set<Elem<K>>,
                           ghost chains: Chains<K>, ghost home: map<Elem<K>, nat>, ghost b: nat, ghost i: nat)
    returns (ghost chains': Chains<K>)
    requires 0 < newTable.Length && InRange(chains, b, i) && i < |chains[b]| && elm == chains[b][i]
    requires WasAt(chains, home) && Distinct(chains[b])
    requires Copied(newTable, newChains, done, chains, home, b, i)
    modifies newTable, elm`next, elm`bucket
    ensures Copied(newTable, chains', done + {elm}, chains, home, b, i + 1)
  {
    hide Shape, BucketOf;
    assert elm !in done;
    chains' := PushFront(newTable, BucketOf(elm.hash, newTable.Length), elm, newChains, done);
  }

  /** The inner loop of the copying rehash: empties one old chain. */
  method CopyChain<K(!new)>(first: Elem?<K>, newTable: array<Elem?<K>>, ghost newChains: Chains<K>, ghost done: set<Elem<K>>,
                            ghost chains: Chains<K>, ghost home: map<Elem<K>, nat>, ghost b: nat)
    returns (ghost chains': Chains<K>, ghost done': set<Elem<K>>)
    requires 0 < newTable.Length && b < |chains| && first == At(chains[b], 0)
    requires WasAt(chains, home) && Distinct(chains[b])
    requires Copied(newTable, newChains, done, chains, home, b, 0)
    modifies newTable, home.Keys`next, home.Keys`bucket
    ensures Copied(newTable, chains', done', chains, home, b, |chains[b]|)
  {
    hide Shape, BucketOf, Placed, Distinct;
    var elm := first;
    ghost var i := 0;
    chains', done' := newChains, done;
    while elm != null
      invariant 0 <= i <= |chains[b]| && elm == At(chains[b], i)
      invariant Copied(newTable, chains', done', chains, home, b, i)
      decreases |chains[b]| - i
    {
      var next := elm.next;
      chains' := CopyElem(elm, newTable, chains', done', chains, home, b, i);
      done' := done' + {elm};
      elm := next;
      i := i + 1;
    }
  }

  lemma ChainCopied<K(!new)>(newTable: array<Elem?<K>>, newChains: Chains<K>, done: set<Elem<K>>,
                             chains: Chains<K>, home: map<Elem<K>, nat>, b: nat)
    requires 0 < newTable.Length && WasAt(chains, home) && b < |chains|
    requires Copied(newTable, newChains, done, chains, home, b, |chains[b]|)
    ensures b + 1 < |chains| ==> Copied(newTable, newChains, done, chains, home, b + 1, 0)
    ensures b + 1 == |chains| ==> done == home.Keys
  {
    hide Shape, Placed;
    forall e | e in home
      ensures e in done <==> home[e] < b + 1
    {
      if home[e] == b {
        var j :| 0 <= j < |chains[b]| && chains[b][j] == e;
      }
    }
  }

  lemma AllDistinct<K(!new)>(table: array<Elem?<K>>, chains: Chains<K>, elems: set<Elem<K>>)
    requires Shape(table, chains, elems)
    ensures forall b {:trigger chains[b]} :: 0 <= b < |chains| ==> Distinct(chains[b])
  {
    forall b {:trigger chains[b]} | 0 <= b < |chains|
      ensures Distinct(chains[b])
    {
      ChainsDistinct(table, chains, elems, b);
    }
  }

  /** An empty new table, and nothing copied yet. */
  lemma CopyStarts<K(!new)>(newTable: array<Elem?<K>>, newChains: Chains<K>, oldTable: array<Elem?<K>>, chains: Chains<K>, elems: set<Elem<K>>,
                            home: map<Elem<K>, nat>)
    requires Shape(oldTable, chains, elems) && 0 < newTable.Length == |newChains|
    requires (forall b :: 0 <= b < newTable.Length ==> newTable[b] == null) && forall b :: 0 <= b < |newChains| ==> newChains[b] == []
    requires home == map e | e in elems :: e.bucket
    ensures home.Keys == elems && WasAt(chains, home)
    ensures |chains| > 0 ==> Copied(newTable, newChains, {}, chains, home, 0, 0)
  {
  }

  /** The rehash that HT_GROW uses when it can allocate a second table. */
  method RehashCopying<K(!new)>(oldTable: array<Elem?<K>>, newLen: nat, ghost chains: Chains<K>, ghost elems: set<Elem<K>>)
    returns (newTable: array<Elem?<K>>, ghost chains': Chains<K>)
    requires Shape(oldTable, chains, elems) && 0 < newLen
    modifies elems`next, elems`bucket
    ensures fresh(newTable) && newTable.Length == newLen == |chains'|
    ensures Shape(newTable, chains', elems) && Placed(elems, newLen)
  {
    AllDistinct(oldTable, chains, elems);
    ghost var home := map e | e in elems :: e.bucket;
    newTable := new Elem?<K>[newLen](_ => null);
    ghost var done := {};
    chains' := seq(newLen, _ => []);
    CopyStarts(newTable, chains', oldTable, chains, elems, home);
    hide Shape, Placed, Copied, WasAt, Distinct;
    var b := 0;
    while b < oldTable.Length
      invariant 0 <= b <= oldTable.Length
      invariant b < oldTable.Length ==> Copied(newTable, chains', done, chains, home, b, 0)
      invariant b == oldTable.Length ==> Shape(newTable, chains', elems) && Placed(elems, newLen)
    {
      chains', done := CopyChain(oldTable[b], newTable, chains', done, chains, home, b);
      ChainCopied(newTable, chains', done, chains, home, b);
      b := b + 1;
    }
  }

  /** In-place rehash, before the element at position i of chain b is examined: every
      element before it, every visited old chain and every new chain is in its place. */
  ghost predicate Settled<K(!new)>(chains: Chains<K>, b: nat, i: nat, oldLen: nat)
    requires 0 < |chains|
    reads set k, j | 0 <= k < |chains| && 0 <= j < |chains[k]| :: chains[k][j]
  {
    forall k, j {:trigger chains[k][j]} :: 0 <= k < |chains| && 0 <= j < |chains[k]| && (k < b || (k == b && j < i) || oldLen <= k) ==>
      BucketOf(chains[k][j].hash, |chains|) == k
  }

  /** Moves the element that the slot points at to the front of bucket b2. */
  method Move<K(!new)>(table: array<Elem?<K>>, pE: Slot<K>, b2: nat, oldLen: nat,
                       ghost chains: Chains<K>, ghost elems: set<Elem<K>>, ghost b: nat, ghost i: nat)
    returns (ghost chains': Chains<K>)
    requires Shape(table, chains, elems) && InRange(chains, b, i) && i < |chains[b]| && pE == SlotAt(chains, b, i)
    requires b2 == BucketOf(chains[b][i].hash, table.Length) && b2 != b
    requires Settled(chains, b, i, oldLen)
    modifies table, elems`next, elems`bucket
    ensures Shape(table, chains', elems)
    ensures |chains'| == |chains| && chains'[b] == Without(chains[b], i)
    ensures Settled(chains', b, i, oldLen)
  {
    var e, cut := Unlink(table, pE, chains, elems, b, i);
    chains' := PushFront(table, b2, e, cut, elems - {e});
    assert elems - {e} + {e} == elems;
    SettledAfterMove(chains, chains', b, i, b2, oldLen);
  }

  lemma SettledAfterMove<K(!new)>(chains: Chains<K>, chains': Chains<K>, b: nat, i: nat, b2: nat, oldLen: nat)
    requires InRange(chains, b, i) && i < |chains[b]| && b2 < |chains| && b2 != b
    requires b2 == BucketOf(chains[b][i].hash, |chains|)
    requires chains' == chains[b := Without(chains[b], i)][b2 := [chains[b][i]] + chains[b2]]
    requires Settled(chains, b, i, oldLen)
    ensures Settled(chains', b, i, oldLen)
  {
    hide BucketOf;
    assert forall j :: 0 <= j < i ==> chains'[b][j] == chains[b][j];
    assert forall j :: 0 < j < |chains'[b2]| ==> chains'[b2][j] == chains[b2][j - 1];
  }

  /** The loop over one old chain of the in-place rehash.  A misplaced element goes to the
      front of its new chain, which may be an old chain that has not been scanned yet: it
      is then examined again, and stays.  The loop ends because each turn advances in
      chain b or shortens it. */
  method SettleChain<K(!new)>(table: array<Elem?<K>>, b: nat, oldLen: nat, ghost chains: Chains<K>, ghost elems: set<Elem<K>>)
    returns (ghost chains': Chains<K>)
    requires Shape(table, chains, elems) && b < oldLen <= table.Length
    requires Settled(chains, b, 0, oldLen)
    modifies table, elems`next, elems`bucket
    ensures Shape(table, chains', elems)
    ensures Settled(chains', b + 1, 0, oldLen)
  {
    hide BucketOf;
    var pE := Bucket(b);
    var e := table[b];
    ghost var i := 0;
    chains' := chains;
    while e != null
      invariant Shape(table, chains', elems)
      invariant 0 <= i <= |chains'[b]| && pE == SlotAt(chains', b, i) && e == At(chains'[b], i)
      invariant Settled(chains', b, i, oldLen)
      decreases |chains'[b]| - i
    {
      var b2 := BucketOf(e.hash, table.Length);
      if b2 == b {
        pE := NextOf(e);
        i := i + 1;
      } else {
        chains' := Move(table, pE, b2, oldLen, chains', elems, b, i);
      }
      e := Deref(table, pE);
    }
  }

  /** The rehash that HT_GROW falls back to: one table, grown by realloc. */
  method RehashInPlace<K(!new)>(oldTable: array<Elem?<K>>, newLen: nat, ghost chains: Chains<K>, ghost elems: set<Elem<K>>)
    returns (newTable: array<Elem?<K>>, ghost chains': Chains<K>)
    requires Shape(oldTable, chains, elems) && oldTable.Length < newLen
    modifies elems`next, elems`bucket
    ensures fresh(newTable) && newTable.Length == newLen == |chains'|
    ensures Shape(newTable, chains', elems) && Placed(elems, newLen)
  {
    hide BucketOf;
    var oldLen := oldTable.Length;
    // realloc keeps the old contents, memset clears the rest
    newTable := new Elem?<K>[newLen](i requires 0 <= i reads oldTable => if i < oldTable.Length then oldTable[i] else null);
    chains' := chains + seq(newLen - oldLen, _ => []);
    var b := 0;
    while b < oldLen
      invariant 0 <= b <= oldLen
      invariant Shape(newTable, chains', elems)
      invariant Settled(chains', b, 0, oldLen)
    {
      chains' := SettleChain(newTable, b, oldLen, chains', elems);
      b := b + 1;
    }
    forall e | e in elems
      ensures e.bucket == BucketOf(e.hash, newLen)
    {
      var i :| 0 <= i < |chains'[e.bucket]| && chains'[e.bucket][i] == e;
    }
  }

  // ----- the abstract state: a finite map

  /** `elems` are exactly the elements of the map, each under its own key. */
  ghost predicate Lists<K(!new)>(contents: map<K, Elem<K>>, elems: set<Elem<K>>) {
    && (forall e {:trigger e in elems} :: e in elems ==> e.key in contents && contents[e.key] == e)
    && (forall k {:trigger contents[k]} :: k in contents ==> contents[k] in elems && contents[k].key == k)
  }

  lemma ListsLookup<K(!new)>(contents: map<K, Elem<K>>, elems: set<Elem<K>>, e: Elem<K>)
    requires Lists(contents, elems)
    ensures e.key !in contents ==> e !in elems
    ensures e.key in contents ==> contents[e.key] in elems && contents[e.key].key == e.key
    ensures e in elems ==> e.key in contents && contents[e.key] == e
    ensures elems == {} ==> contents == map[]
  {
  }

  lemma ListsAdded<K(!new)>(contents: map<K, Elem<K>>, elems: set<Elem<K>>, e: Elem<K>)
    requires Lists(contents, elems) && e.key !in contents
    ensures Lists(contents[e.key := e], elems + {e}) && |contents[e.key := e]| == |contents| + 1
  {
  }

  lemma ListsRemoved<K(!new)>(contents: map<K, Elem<K>>, elems: set<Elem<K>>, e: Elem<K>)
    requires Lists(contents, elems) && e in elems
    ensures Lists(contents - {e.key}, elems - {e}) && |contents - {e.key}| == |contents| - 1
  {
    assert (contents - {e.key}).Keys == contents.Keys - {e.key};
  }

  lemma ListsReplaced<K(!new)>(contents: map<K, Elem<K>>, elems: set<Elem<K>>, r: Elem<K>, e: Elem<K>)
    requires Lists(contents, elems) && r in elems && e !in elems && e.key == r.key
    ensures Lists(contents[e.key := e], elems - {r} + {e}) && |contents[e.key := e]| == |contents|
  {
  }

  lemma ListsKept<K(!new)>(contents: map<K, Elem<K>>, elems: set<Elem<K>>, visited: seq<Elem<K>>, drop: Elem<K> -> bool,
                           contents': map<K, Elem<K>>)
    requires Lists(contents, elems) && VisitsOnce(visited, elems)
    requires Lists(contents', elems - Dropped(visited, drop))
    ensures contents' == Kept(contents, drop)
  {
    var kept := Kept(contents, drop);
    forall k | k in kept
      ensures k in contents' && contents'[k] == kept[k]
    {
      assert contents[k] in elems - Dropped(visited, drop);
    }
  }

  /** The table holds as many elements as the map has keys. */
  lemma {:induction false} ListsCount<K(!new)>(contents: map<K, Elem<K>>, elems: set<Elem<K>>)
    requires Lists(contents, elems)
    ensures |elems| == |contents|
    decreases elems
  {
    if elems == {} {
      assert contents == map[];
    } else {
      var e :| e in elems;
      ListsRemoved(contents, elems, e);
      ListsCount(contents - {e.key}, elems - {e});
    }
  }

  // ----- traversal order and counting

  datatype Option<T> = None | Some(value: T)

  /** The elements from position i of chain b on, in the order of a traversal. */
  ghost function Flat<K>(chains: Chains<K>, b: nat, i: nat): seq<Elem<K>>
    requires b < |chains| ==> i <= |chains[b]|
    decreases |chains| - b
  {
    if |chains| <= b then [] else chains[b][i..] + Flat(chains, b + 1, 0)
  }

  ghost function Filter<T>(s: seq<T>, drop: T -> bool): seq<T> {
    if s == [] then [] else (if drop(s[0]) then [] else [s[0]]) + Filter(s[1..], drop)
  }

  lemma {:induction false} FilterSnoc<T>(s: seq<T>, x: T, drop: T -> bool)
    ensures Filter(s + [x], drop) == Filter(s, drop) + (if drop(x) then [] else [x])
  {
    if s != [] {
      assert (s + [x])[1..] == s[1..] + [x];
      FilterSnoc(s[1..], x, drop);
    }
  }

  /** A visit of every element of `elems`, once. */
  ghost predicate VisitsOnce<K(!new)>(visited: seq<Elem<K>>, elems: set<Elem<K>>) {
    Distinct(visited) && (forall e :: e in visited ==> e in elems) && (forall e :: e in elems ==> e in visited)
  }

  /** The elements of `elems` that were visited and dropped. */
  ghost function Dropped<K(!new)>(visited: seq<Elem<K>>, drop: Elem<K> -> bool): set<Elem<K>> {
    set e | e in visited && drop(e)
  }

  ghost function Kept<K(!new)>(contents: map<K, Elem<K>>, drop: Elem<K> -> bool): map<K, Elem<K>> {
    map k | k in contents && !drop(contents[k]) :: contents[k]
  }

  /** How many elements the first b chains hold. */
  ghost function Total<K>(chains: Chains<K>, b: nat): nat
    requires b <= |chains|
  {
    if b == 0 then 0 else Total(chains, b - 1) + |chains[b - 1]|
  }

  ghost function ToSet<T>(c: seq<T>): set<T> {
    set x | x in c
  }

  lemma {:induction false} DistinctCount<T>(c: seq<T>)
    requires Distinct(c)
    ensures |ToSet(c)| == |c|
  {
    if c != [] {
      DistinctCount(c[1..]);
      assert ToSet(c) == ToSet(c[1..]) + {c[0]};
    }
  }

  ghost function Before<K>(elems: set<Elem<K>>, b: nat): set<Elem<K>>
    reads elems
  {
    set e | e in elems && e.bucket < b
  }

  lemma BeforeNext<K(!new)>(table: array<Elem?<K>>, chains: Chains<K>, elems: set<Elem<K>>, b: nat)
    requires Shape(table, chains, elems) && b < |chains|
    ensures Before(elems, b + 1) == Before(elems, b) + ToSet(chains[b])
    ensures Before(elems, b) !! ToSet(chains[b])
  {
    forall e | e in Before(elems, b + 1)
      ensures e in Before(elems, b) || e in ToSet(chains[b])
    {
    }
  }

  lemma {:induction false} PrefixCount<K(!new)>(table: array<Elem?<K>>, chains: Chains<K>, elems: set<Elem<K>>, b: nat)
    requires Shape(table, chains, elems) && b <= |chains|
    ensures |Before(elems, b)| == Total(chains, b)
  {
    if b == 0 {
      assert Before(elems, b) == {};
    } else {
      PrefixCount(table, chains, elems, b - 1);
      ChainsDistinct(table, chains, elems, b - 1);
      DistinctCount(chains[b - 1]);
      BeforeNext(table, chains, elems, b - 1);
      hide Shape, Distinct, ToSet, Before;
    }
  }

  /** The chains together hold every element once. */
  lemma ShapeCount<K(!new)>(table: array<Elem?<K>>, chains: Chains<K>, elems: set<Elem<K>>)
    requires Shape(table, chains, elems)
    ensures |elems| == Total(chains, |chains|)
  {
    PrefixCount(table, chains, elems, |chains|);
    assert elems == Before(elems, |chains|);
  }

  /** A traversal from bucket b on meets every element of those buckets, once. */
  lemma {:induction false} FlatOnce<K(!new)>(table: array<Elem?<K>>, chains: Chains<K>, elems: set<Elem<K>>, b: nat)
    requires Shape(table, chains, elems) && b <= |chains|
    ensures Distinct(Flat(chains, b, 0))
    ensures forall e :: e in Flat(chains, b, 0) ==> e in elems && b <= e.bucket
    ensures forall e :: e in elems && b <= e.bucket ==> e in Flat(chains, b, 0)
    decreases |chains| - b
  {
    if b < |chains| {
      FlatOnce(table, chains, elems, b + 1);
      ChainsDistinct(table, chains, elems, b);
      var rest := Flat(chains, b + 1, 0);
      assert chains[b][0..] == chains[b];
      assert forall i, j :: 0 <= i < |chains[b]| && 0 <= j < |rest| ==> chains[b][i] != rest[j];
    }
  }

  // ----- the head structure

  const LAST: nat := 23

  /** The table lengths, as in HT_GENERATE2. */
  function Prime(i: nat): nat
    requires i <= LAST
  {
    [
      53, 97, 193, 389,
      769, 1543, 3079, 6151,
      12289, 24593, 49157, 98317,
      196613, 393241, 786433, 1572869,
      3145739, 6291469, 12582917, 25165843,
      50331653, 100663319, 201326611, 402653189
    ][i]
  }

  lemma PrimesIncrease(i: nat, j: nat)
    requires i < j <= LAST
    ensures 0 < Prime(i) < Prime(j)
    decreases j
  {
    if i + 1 < j {
      PrimesIncrease(i, j - 1);
    }
  }

  /** How many elements a table of this length may hold: the load times the length, rounded
      down. */
  function Limit(load: real, len: nat): (limit: nat)
    requires 0.0 < load
  {
    (load * len as real).Floor
  }

  /** What the head and its memory stand for: the chains, their elements, and the finite
      map that the table refines. */
  datatype Abstract<!K> = Abstract(chains: Chains<K>, elems: set<Elem<K>>, contents: map<K, Elem<K>>)

  // ----- whole runs

  datatype Request<!K> = Find(e: Elem<K>) | Insert(e: Elem<K>) | Replace(e: Elem<K>) | Remove(e: Elem<K>)

  /** What ht.h asks of a caller: INSERT gets an absent key, REPLACE an element that is not
      already in the table. */
  ghost predicate Legal<K(!new)>(contents: map<K, Elem<K>>, r: Request<K>) {
    match r
    case Find(_) => true
    case Insert(e) => e.key !in contents
    case Replace(e) => e.key in contents ==> contents[e.key] != e
    case Remove(_) => true
  }

  ghost predicate Adds<K(!new)>(contents: map<K, Elem<K>>, r: Request<K>) {
    (r.Insert? || r.Replace?) && r.e.key !in contents
  }

  ghost function After<K(!new)>(contents: map<K, Elem<K>>, r: Request<K>): map<K, Elem<K>> {
    match r
    case Find(_) => contents
    case Insert(e) => contents[e.key := e]
    case Replace(e) => contents[e.key := e]
    case Remove(e) => contents - {e.key}
  }

  /** Every operation but INSERT answers with the element that had the key. */
  ghost function Answer<K(!new)>(contents: map<K, Elem<K>>, r: Request<K>): Elem?<K> {
    if !r.Insert? && r.e.key in contents then contents[r.e.key] else null
  }

  ghost predicate AllLegal<K(!new)>(contents: map<K, Elem<K>>, rs: seq<Request<K>>)
    decreases |rs|
  {
    rs == [] || (Legal(contents, rs[0]) && AllLegal(After(contents, rs[0]), rs[1..]))
  }

  /** Every INSERT and REPLACE of the run that adds an element finds fewer than `limit`. */
  ghost predicate AllRoom<K(!new)>(contents: map<K, Elem<K>>, rs: seq<Request<K>>, limit: nat)
    decreases |rs|
  {
    rs == [] || ((Adds(contents, rs[0]) ==> |contents| < limit) && AllRoom(After(contents, rs[0]), rs[1..], limit))
  }

  ghost function AfterAll<K(!new)>(contents: map<K, Elem<K>>, rs: seq<Request<K>>): map<K, Elem<K>>
    decreases |rs|
  {
    if rs == [] then contents else AfterAll(After(contents, rs[0]), rs[1..])
  }

  ghost function Answers<K(!new)>(contents: map<K, Elem<K>>, rs: seq<Request<K>>): seq<Elem?<K>>
    decreases |rs|
  {
    if rs == [] then [] else [Answer(contents, rs[0])] + Answers(After(contents, rs[0]), rs[1..])
  }

  lemma NamedTail<K>(rs: seq<Request<K>>)
    requires rs != []
    ensures Named(rs) == {rs[0].e} + Named(rs[1..])
  {
    assert rs == [rs[0]] + rs[1..];
  }

  ghost function Named<K>(rs: seq<Request<K>>): set<Elem<K>> {
    set r | r in rs :: r.e
  }

  /** The do-while scan of HT_GROW from prime index `p`: the index it stops at, or None if
      it goes on to read behind the end of the table of primes. */
  function ScanPrimes(load: real, p: nat, size: nat): (r: Option<nat>)
    requires 0.0 < load && p <= LAST + 1
    decreases LAST + 1 - p
  {
    if p == LAST + 1 then None
    else if Limit(load, Prime(p)) <= size && p < LAST + 1 then ScanPrimes(load, p + 1, size)
    else Some(p)
  }

  /** The loop condition `prime_idx < N_PRIMES` does not stop the scan in time: it leaves
      the table exactly for a size that even the last prime cannot hold. */
  lemma {:induction false} ScanOverruns(load: real, p: nat, size: nat)
    requires 0.0 < load && p <= LAST
    ensures ScanPrimes(load, p, size).None? <==> Limit(load, Prime(LAST)) <= size
    ensures ScanPrimes(load, p, size).Some? ==>
              var q := ScanPrimes(load, p, size).value;
              p <= q <= LAST && size < Limit(load, Prime(q)) && forall j :: p <= j < q ==> Limit(load, Prime(j)) <= size
    decreases LAST - p
  {
    hide Prime;
    if p < LAST {
      LimitMonotone(load, p, LAST);
      hide Limit;
      ScanOverruns(load, p + 1, size);
    }
  }

  lemma LimitMonotone(load: real, p: nat, q: nat)
    requires 0.0 < load && p < q <= LAST
    ensures Limit(load, Prime(p)) <= Limit(load, Prime(q))
  {
    PrimesIncrease(p, q);
    hide Prime;
    MulMonotone(load, Prime(p) as real, Prime(q) as real);
  }

  lemma MulMonotone(load: real, x: real, y: real)
    requires 0.0 < load && x <= y
    ensures load * x <= load * y
  {
  }

  /** The load lets a table of the last size hold four elements or more. */
  predicate Ample(load: real) {
    0.0 < load && 4 <= Limit(load, Prime(LAST))
  }

  lemma LoadsInUse()
    ensures Ample(0.5) && Ample(0.6)
  {
    assert 0.5 * (Prime(LAST) as real) == 201326594.5 && 0.6 * (Prime(LAST) as real) == 241591913.4;
  }

  /** With a load so small that the largest table holds one element at most, the very first
      INSERT reads behind the table of primes. */
  lemma TinyLoadOverruns(load: real)
    requires 0.0 < load && Limit(load, Prime(LAST)) <= 1
    ensures ScanPrimes(load, 0, 1).None?
  {
    ScanOverruns(load, 0, 1);
  }

  /** With an ample load, the last size holds at least two elements more than any other. */
  lemma LastIsLarger(load: real, i: nat)
    requires Ample(load) && i < LAST
    ensures Limit(load, Prime(i)) + 1 < Limit(load, Prime(LAST))
  {
    if i < LAST - 1 {
      LimitMonotone(load, i, LAST - 1);
    }
    var p, q := Prime(LAST - 1) as real, Prime(LAST) as real;
    assert 100.0 * p <= 51.0 * q;
    hide Prime;
    Scaled(load, p, q);
    AboutHalf(load * p, load * q);
  }

  lemma Scaled(load: real, p: real, q: real)
    requires 0.0 < load && 100.0 * p <= 51.0 * q
    ensures 100.0 * (load * p) <= 51.0 * (load * q)
  {
    MulMonotone(load, 100.0 * p, 51.0 * q);
    assert load * (100.0 * p) == 100.0 * (load * p) && load * (51.0 * q) == 51.0 * (load * q);
  }

  lemma AboutHalf(x: real, y: real)
    requires 100.0 * x <= 51.0 * y && 4 <= y.Floor
    ensures x.Floor + 1 < y.Floor
  {
    if y.Floor == 4 {
      assert x < 3.0;
    }
  }

  class Table<K(==, !new)> {
    const hashfn: K -> nat
    const load: real

    var table: array?<Elem?<K>>  // hth_table
    var tableLength: nat         // hth_table_length
    var nEntries: nat            // hth_n_entries
    var loadLimit: nat           // hth_load_limit
    var primeIdx: int            // hth_prime_idx

    ghost var abs: Abstract<K>

    /** The memory is a proper set of chains. */
    ghost predicate Linked()
      reads this, table, abs.elems
    {
      if table == null then abs.chains == [] && abs.elems == {} && tableLength == 0
      else tableLength == table.Length == |abs.chains| && 0 < tableLength && Shape(table, abs.chains, abs.elems)
    }

    /** The sizes agree with the primes table and the load. */
    predicate Sized()
      reads this`tableLength, this`loadLimit, this`primeIdx
    {
      && 0.0 < load
      && (if tableLength == 0 then loadLimit == 0 && primeIdx == -1
          else 0 <= primeIdx <= LAST && 0 < loadLimit && tableLength == Prime(primeIdx) && loadLimit == Limit(load, tableLength))
    }

    ghost predicate Hashed()
      reads this, abs.elems`hash, abs.elems`bucket
    {
      Hashes(abs.elems, hashfn, tableLength)
    }

    ghost predicate Counted()
      reads this
    {
      nEntries == |abs.contents| && nEntries <= loadLimit
    }

    ghost predicate Valid()
      reads this, table, abs.elems
    {
      Linked() && Sized() && Hashed() && Lists(abs.contents, abs.elems) && Counted()
    }

    /** HT_INIT */
    constructor (hashfn: K -> nat, load: real)
      requires 0.0 < load
      ensures Valid() && abs.contents == map[] && this.hashfn == hashfn && this.load == load
    {
      this.hashfn, this.load := hashfn, load;
      table, tableLength, nEntries, loadLimit, primeIdx := null, 0, 0, 0, -1;
      abs := Abstract([], {}, map[]);
    }

    /** HT_GROW.  `copying` says whether the allocation of a second table succeeds; if it
        does not, realloc does.  The bound on `size` keeps the scan inside PRIMES. */
    method Grow(size: nat, copying: bool)
      requires Linked() && Sized() && Hashed()
      requires primeIdx == LAST || size < Limit(load, Prime(LAST))
      modifies this`table, this`tableLength, this`loadLimit, this`primeIdx, this`abs, abs.elems`next, abs.elems`bucket
      ensures Linked() && Sized() && Hashed() && abs == old(abs).(chains := abs.chains)
      ensures if old(primeIdx) == LAST || size < old(loadLimit) then primeIdx == old(primeIdx) && abs == old(abs) && table == old(table)
              else ScanPrimes(load, old(primeIdx) + 1, size) == Some(primeIdx)
      ensures size < loadLimit || (primeIdx == LAST && loadLimit == old(loadLimit))
      ensures old(loadLimit) <= size || loadLimit == old(loadLimit)
      ensures table == old(table) || fresh(table)
    {
      hide Shape, Placed;
      if primeIdx == LAST || size < loadLimit {
        return;
      }
      hide Prime, Limit, ScanPrimes;
      var p := ScanFor(size);
      if primeIdx != -1 {
        PrimesIncrease(primeIdx, p);
      }
      Rehash(Prime(p), copying);
      tableLength, primeIdx, loadLimit := Prime(p), p, Limit(load, Prime(p));
    }

    /** The loop of HT_GROW over the primes. */
    method ScanFor(size: nat) returns (p: nat)
      requires 0.0 < load && -1 <= primeIdx < LAST && size < Limit(load, Prime(LAST))
      ensures primeIdx < p <= LAST && size < Limit(load, Prime(p)) && ScanPrimes(load, primeIdx + 1, size) == Some(p)
    {
      hide Prime, Limit;
      ScanOverruns(load, primeIdx + 1, size);
      p := primeIdx + 1;
      var newLen := Prime(p);
      var newLimit := Limit(load, newLen);
      while newLimit <= size && p < LAST + 1
        invariant primeIdx < p <= LAST && newLen == Prime(p) && newLimit == Limit(load, newLen)
        invariant ScanPrimes(load, p, size) == ScanPrimes(load, primeIdx + 1, size)
        decreases LAST - p
      {
        p := p + 1;
        newLen := Prime(p);
        newLimit := Limit(load, newLen);
      }
    }

    /** The two ways in which HT_GROW moves every element to a table of `newLen` buckets. */
    method Rehash(newLen: nat, copying: bool)
      requires Linked() && tableLength < newLen
      modifies this`table, this`abs, abs.elems`next, abs.elems`bucket
      ensures table != null && fresh(table) && table.Length == newLen == |abs.chains| && abs == old(abs).(chains := abs.chains)
      ensures Shape(table, abs.chains, abs.elems) && Placed(abs.elems, newLen)
    {
      hide Placed;
      var oldTable;
      if table == null {
        oldTable := new Elem?<K>[0];
      } else {
        oldTable := table;
      }
      hide Shape;
      ghost var chains;
      if copying {
        table, chains := RehashCopying(oldTable, newLen, abs.chains, abs.elems);
      } else {
        table, chains := RehashInPlace(oldTable, newLen, abs.chains, abs.elems);
      }
      abs := abs.(chains := chains);
    }

    /** HT_FIND_P_: the address of the pointer to the element that equals `elm`, or of the
        NULL that ends the chain where it would be; NULL if there is no table yet. */
    method FindP(elm: Elem<K>) returns (r: Option<Slot<K>>, ghost b: nat, ghost i: nat)
      requires Linked() && Hashed() && Lists(abs.contents, abs.elems) && elm.hash == hashfn(elm.key)
      ensures r.None? <==> table == null
      ensures r.None? ==> elm.key !in abs.contents
      ensures r.Some? ==> InRange(abs.chains, b, i) && r.value == SlotAt(abs.chains, b, i) && b == BucketOf(elm.hash, tableLength)
      ensures r.Some? && i < |abs.chains[b]| ==> elm.key in abs.contents && abs.contents[elm.key] == abs.chains[b][i]
      ensures r.Some? && i == |abs.chains[b]| ==> elm.key !in abs.contents
      ensures r.Some? ==> (r.value.Bucket? ==> r.value.b < table.Length) && Deref(table, r.value) == At(abs.chains[b], i)
    {
      hide BucketOf;
      if table == null {
        return None, 0, 0;
      }
      var p;
      p, b, i := Search(elm);
      r := Some(p);
    }

    /** The loop of HT_FIND_P_. */
    method Search(elm: Elem<K>) returns (p: Slot<K>, ghost b: nat, ghost i: nat)
      requires Linked() && Hashed() && Lists(abs.contents, abs.elems) && table != null && elm.hash == hashfn(elm.key)
      ensures InRange(abs.chains, b, i) && p == SlotAt(abs.chains, b, i) && b == BucketOf(elm.hash, tableLength)
      ensures i < |abs.chains[b]| ==> elm.key in abs.contents && abs.contents[elm.key] == abs.chains[b][i]
      ensures i == |abs.chains[b]| ==> elm.key !in abs.contents
      ensures (p.Bucket? ==> p.b < table.Length) && Deref(table, p) == At(abs.chains[b], i)
    {
      hide BucketOf;
      b, i := BucketOf(elm.hash, tableLength), 0;
      p := Bucket(BucketOf(elm.hash, tableLength));
      var cur := Deref(table, p);
      while cur != null
        invariant i <= |abs.chains[b]| && p == SlotAt(abs.chains, b, i) && cur == At(abs.chains[b], i)
        invariant forall j :: 0 <= j < i ==> abs.chains[b][j].key != elm.key
        decreases |abs.chains[b]| - i
      {
        if cur.key == elm.key {
          return;
        }
        p := NextOf(cur);
        cur := cur.next;
        i := i + 1;
      }
    }
  
    /** HT_FIND */
    method Find(elm: Elem<K>) returns (r: Elem?<K>)
      requires Valid()
      modifies elm`hash
      ensures Valid() && elm.hash == hashfn(elm.key)
      ensures r == if elm.key in abs.contents then abs.contents[elm.key] else null
    {
      hide Shape, Lists, Placed;
      ListsLookup(abs.contents, abs.elems, elm);
      elm.hash := hashfn(elm.key);
      var p, b, i := FindP(elm);
      r := if p.Some? then Deref(table, p.value) else null;
    }
  
    /** HT_GROW, if it is called for one more element, stays within the table of primes. */
    predicate GrowsWithin()
      requires 0.0 < load
      reads this
    {
      (table == null || nEntries >= loadLimit) && primeIdx != LAST ==> nEntries + 1 < Limit(load, Prime(LAST))
    }

    /** So HT_INSERT and HT_REPLACE never read behind the table of primes, whatever they are
        given, unless the load is next to nothing. */
    lemma NeverOverruns()
      requires Valid() && Ample(load)
      ensures GrowsWithin()
    {
      hide Shape, Lists, Hashes, Prime, Limit;
      if (table == null || nEntries >= loadLimit) && primeIdx != LAST {
        if table != null {
          LastIsLarger(load, primeIdx);
        }
      }
    }

    /** The table has its last size, and as many elements as that may hold. */
    predicate Full()
      reads this
    {
      primeIdx == LAST && nEntries >= loadLimit
    }

    lemma WithinPrimes()
      requires Valid() && (Ample(load) || GrowsWithin())
      ensures GrowsWithin()
    {
      hide Shape, Lists, Hashes, Prime, Limit, Ample;
      if Ample(load) {
        NeverOverruns();
      }
    }

    /** HT_INSERT.  A full table takes the element as well, but is past its load limit then:
        the representation stays good exactly when the table was not full. */
    method Insert(elm: Elem<K>, copying: bool)
      requires Valid() && elm.key !in abs.contents && (Ample(load) || GrowsWithin())
      modifies this`table, this`tableLength, this`loadLimit, this`primeIdx, this`abs
      modifies this`nEntries, table, abs.elems`next, abs.elems`bucket, elm
      ensures Linked() && Sized() && Hashed() && Lists(abs.contents, abs.elems) && nEntries == |abs.contents|
      ensures Valid() <==> old(!Full())
      ensures abs.contents == old(abs.contents)[elm.key := elm] && abs.elems == old(abs.elems) + {elm}
      ensures table == old(table) || fresh(table)
    {
      hide Shape, Lists, Placed, Prime, Limit, Ample;
      WithinPrimes();
      ListsLookup(abs.contents, abs.elems, elm);
      if table == null || nEntries >= loadLimit {
        Grow(nEntries + 1, copying);
      }
      Prepend(elm);
    }

    /** The rest of HT_INSERT, once the table is large enough, or as large as it can be. */
    method Prepend(elm: Elem<K>)
      requires Valid() && elm.key !in abs.contents && table != null
      modifies this`nEntries, this`abs, table, elm
      ensures Linked() && Sized() && Hashed() && Lists(abs.contents, abs.elems) && nEntries == |abs.contents| == old(nEntries) + 1
      ensures abs.contents == old(abs.contents)[elm.key := elm] && abs.elems == old(abs.elems) + {elm}
    {
      hide Shape, Lists, BucketOf, Hashes, Prime, Limit;
      ListsLookup(abs.contents, abs.elems, elm);
      nEntries := nEntries + 1;
      elm.hash := hashfn(elm.key);
      ghost var chains := PushFront(table, BucketOf(elm.hash, tableLength), elm, abs.chains, abs.elems);
      HashesAdded(abs.elems, hashfn, tableLength, elm);
      ListsAdded(abs.contents, abs.elems, elm);
      abs := Abstract(chains, abs.elems + {elm}, abs.contents[elm.key := elm]);
    }

    /** HT_REMOVE */
    method Remove(elm: Elem<K>) returns (r: Elem?<K>)
      requires Valid()
      modifies this`nEntries, this`abs, table, abs.elems`next, elm`hash
      ensures Valid()
      ensures if elm.key in old(abs.contents) then r == old(abs.contents)[elm.key] && r.next == null else r == null
      ensures abs.contents == old(abs.contents) - {elm.key}
      ensures abs.elems == old(abs.elems) - (if r == null then {} else {r})
    {
      hide Shape, Lists, BucketOf, Prime, Limit;
      ListsLookup(abs.contents, abs.elems, elm);
      elm.hash := hashfn(elm.key);
      var p, b, i := FindP(elm);
      if p.None? || Deref(table, p.value) == null {
        return null;
      }
      r := Detach(p.value, b, i);
      r.next := null;
    }

    /** HT_REMOVE once the element has been found: it leaves the chain and the count. */
    method Detach(p: Slot<K>, ghost b: nat, ghost i: nat) returns (r: Elem<K>)
      requires Valid() && table != null
      requires b < |abs.chains| && i < |abs.chains[b]| && p == SlotAt(abs.chains, b, i)
      requires abs.chains[b][i] in abs.elems
      modifies this`nEntries, this`abs, table, abs.elems`next
      ensures Valid() && r == old(abs.chains[b][i]) && r !in abs.elems && r.next == old(abs.chains[b][i].next)
      ensures abs.contents == old(abs.contents) - {r.key}
      ensures abs.elems == old(abs.elems) - {r} && abs.chains == old(abs.chains)[b := Without(old(abs.chains)[b], i)]
    {
      hide Shape, Lists, BucketOf, Hashes, Prime, Limit;
      ghost var chains;
      r, chains := Unlink(table, p, abs.chains, abs.elems, b, i);
      HashesFewer(abs.elems, hashfn, tableLength, abs.elems - {r});
      ListsRemoved(abs.contents, abs.elems, r);
      nEntries := nEntries - 1;
      abs := Abstract(chains, abs.elems - {r}, abs.contents - {r.key});
    }
  
    /** No element equals `elm`, but it has a link, from a chain that it was removed from. */
    ghost predicate Stale(elm: Elem<K>)
      reads this`abs, elm`next
    {
      elm.key !in abs.contents && elm.next != null
    }

    /** HT_REPLACE.  There are three ways to spoil the representation, and no others: to
        replace an element by itself, which counts it once more; to add to a full table; and
        to add an element with a stale link, which hangs what follows that link on the
        bucket.  Then no reading of the memory as proper chains has as many elements as the
        table counts. */
    method Replace(elm: Elem<K>, copying: bool) returns (r: Elem?<K>)
      requires Valid() && (Ample(load) || GrowsWithin())
      modifies this`table, this`tableLength, this`loadLimit, this`primeIdx, this`abs
      modifies this`nEntries, table, abs.elems`next, abs.elems`bucket, elm
      ensures Valid() <==> old(!Stale(elm) && elm !in abs.elems && (Full() ==> elm.key in abs.contents))
      ensures old(!Stale(elm)) ==> Linked() && Sized() && Hashed() && Lists(abs.contents, abs.elems)
      ensures old(!Stale(elm)) ==> abs.contents == old(abs.contents)[elm.key := elm]
      ensures old(!Stale(elm)) ==> nEntries == |abs.contents| + (if old(elm in abs.elems) then 1 else 0)
      ensures if elm.key in old(abs.contents) && old(abs.contents)[elm.key] != elm
              then r == old(abs.contents)[elm.key] && r.next == null else r == null
      ensures old(!Stale(elm)) ==> abs.elems == old(abs.elems) - (if r == null then {} else {r}) + {elm}
      ensures table != null
      ensures old(Stale(elm)) ==>
                forall cs: Chains<K>, es: set<Elem<K>> {:trigger Shape(table, cs, es)} :: Shape(table, cs, es) ==> nEntries < |es|
      ensures table == old(table) || fresh(table)
    {
      hide Shape, Lists, Placed, Prime, Limit, Ample;
      WithinPrimes();
      ListsLookup(abs.contents, abs.elems, elm);
      if table == null || nEntries >= loadLimit {
        Grow(nEntries + 1, copying);
      }
      r := Exchange(elm);
      if Lists(abs.contents, abs.elems) {
        ListsCount(abs.contents, abs.elems);
      }
    }

    /** The rest of HT_REPLACE, once the table is large enough, or as large as it can be. */
    method Exchange(elm: Elem<K>) returns (r: Elem?<K>)
      requires Valid() && table != null
      modifies this`nEntries, this`abs, table, abs.elems`next, abs.elems`bucket, elm
      ensures old(!Stale(elm)) ==> Linked() && Sized() && Hashed() && Lists(abs.contents, abs.elems)
      ensures old(!Stale(elm)) ==> abs.contents == old(abs.contents)[elm.key := elm]
      ensures old(!Stale(elm)) ==> nEntries == |abs.contents| + (if old(elm in abs.elems) then 1 else 0)
      ensures nEntries == old(nEntries) + (if r == null then 1 else 0)
      ensures if elm.key in old(abs.contents) && old(abs.contents)[elm.key] != elm
              then r == old(abs.contents)[elm.key] && r.next == null else r == null
      ensures old(!Stale(elm)) ==> abs.elems == old(abs.elems) - (if r == null then {} else {r}) + {elm}
      ensures old(Stale(elm)) ==>
                forall cs: Chains<K>, es: set<Elem<K>> {:trigger Shape(table, cs, es)} :: Shape(table, cs, es) ==> nEntries < |es|
    {
      hide Shape, Lists, Placed, Prime, Limit;
      ListsLookup(abs.contents, abs.elems, elm);
      elm.hash := hashfn(elm.key);
      var p, b, i := FindP(elm);
      r := Deref(table, p.value);
      if r == null {
        AppendAt(p.value, elm, b);
      } else if r == elm {
        nEntries := nEntries + 1;
        r := null;
      } else {
        SwapAt(p.value, elm, b, i);
      }
    }

    /** HT_REPLACE when no element equals `elm`. */
    method AppendAt(p: Slot<K>, elm: Elem<K>, ghost b: nat)
      requires Valid() && table != null
      requires b < |abs.chains| && p == SlotAt(abs.chains, b, |abs.chains[b]|)
      requires elm.key !in abs.contents
      requires elm.hash == hashfn(elm.key) && b == BucketOf(elm.hash, tableLength)
      modifies this`nEntries, this`abs, table, abs.elems`next, elm`bucket
      ensures nEntries == old(nEntries) + 1
      ensures elm.next == null ==> Linked() && Sized() && Hashed() && Lists(abs.contents, abs.elems) && nEntries == |abs.contents|
      ensures elm.next == null ==> abs.contents == old(abs.contents)[elm.key := elm] && abs.elems == old(abs.elems) + {elm}
      ensures elm.next != null ==>
                forall cs: Chains<K>, es: set<Elem<K>> {:trigger Shape(table, cs, es)} :: Shape(table, cs, es) ==> nEntries < |es|
    {
      hide Shape, Lists, BucketOf, Hashes, Prime, Limit, SlotAt, At;
      ListsLookup(abs.contents, abs.elems, elm);
      ListsCount(abs.contents, abs.elems);
      nEntries := nEntries + 1;
      ghost var chains := Append(table, p, elm, abs.chains, abs.elems, b);
      if elm.next == null {
        HashesAdded(abs.elems, hashfn, tableLength, elm);
        ListsAdded(abs.contents, abs.elems, elm);
        abs := Abstract(chains, abs.elems + {elm}, abs.contents[elm.key := elm]);
      }
    }

    /** HT_REPLACE when another element equals `elm`. */
    method SwapAt(p: Slot<K>, elm: Elem<K>, ghost b: nat, ghost i: nat)
      requires Valid() && table != null
      requires b < |abs.chains| && i < |abs.chains[b]| && p == SlotAt(abs.chains, b, i)
      requires elm.key in abs.contents && abs.contents[elm.key] == abs.chains[b][i] != elm
      requires elm.hash == hashfn(elm.key) && b == BucketOf(elm.hash, tableLength)
      modifies this`abs, table, abs.elems`next, elm`next, elm`bucket
      ensures Valid() && abs.contents == old(abs.contents)[elm.key := elm]
      ensures abs.elems == old(abs.elems) - {old(abs.chains[b][i])} + {elm}
      ensures old(abs.chains[b][i]).next == null
    {
      hide Shape, Lists, BucketOf, Hashes, Prime, Limit;
      ListsLookup(abs.contents, abs.elems, elm);
      var r, chains := SwapIn(table, p, elm, abs.chains, abs.elems, b, i);
      HashesFewer(abs.elems, hashfn, tableLength, abs.elems - {r});
      HashesAdded(abs.elems - {r}, hashfn, tableLength, elm);
      ListsReplaced(abs.contents, abs.elems, r, elm);
      abs := Abstract(chains, abs.elems - {r} + {elm}, abs.contents[elm.key := elm]);
    }
  
    /** No element outside the table carries a stale link. */
    ghost predicate Detached(e: Elem<K>)
      reads this`abs, e`next
    {
      e !in abs.elems ==> e.next == null
    }

    method Perform(r: Request<K>, copying: bool) returns (answer: Elem?<K>)
      requires Valid() && Legal(abs.contents, r) && Detached(r.e)
      requires Ample(load) && (Adds(abs.contents, r) ==> nEntries < Limit(load, Prime(LAST)))
      modifies this, table, abs.elems`next, abs.elems`bucket, r.e
      ensures Valid() && (table == old(table) || fresh(table))
      ensures abs.contents == After(old(abs.contents), r) && answer == Answer(old(abs.contents), r)
      ensures abs.elems <= old(abs.elems) + {r.e}
      ensures forall x :: x in old(abs.elems) + {r.e} ==> Detached(x)
    {
      hide Table.Valid, Limit, Prime, Legal, After, Answer;
      if r.Insert? || r.Replace? {
        answer := PerformPut(r, copying);
      } else {
        answer := PerformTake(r);
      }
    }

    method PerformTake(r: Request<K>) returns (answer: Elem?<K>)
      requires Valid() && Legal(abs.contents, r) && Detached(r.e) && (r.Find? || r.Remove?)
      modifies this, table, abs.elems`next, r.e
      ensures Valid() && table == old(table)
      ensures abs.contents == After(old(abs.contents), r) && answer == Answer(old(abs.contents), r)
      ensures abs.elems <= old(abs.elems)
      ensures forall x :: x in old(abs.elems) + {r.e} ==> Detached(x)
    {
      hide Shape, Placed, Prime, Limit, Sized, Hashed, Linked, Lists, Table.Counted;
      if r.Find? {
        answer := Find(r.e);
      } else {
        answer := Remove(r.e);
      }
    }

    method PerformPut(r: Request<K>, copying: bool) returns (answer: Elem?<K>)
      requires Valid() && Legal(abs.contents, r) && Detached(r.e) && (r.Insert? || r.Replace?)
      requires Ample(load) && (Adds(abs.contents, r) ==> nEntries < Limit(load, Prime(LAST)))
      modifies this, table, abs.elems`next, abs.elems`bucket, r.e
      ensures Valid() && (table == old(table) || fresh(table))
      ensures abs.contents == After(old(abs.contents), r) && answer == Answer(old(abs.contents), r)
      ensures abs.elems <= old(abs.elems) + {r.e}
      ensures forall x :: x in old(abs.elems) + {r.e} ==> Detached(x)
    {
      hide Shape, Placed, Prime, Limit;
      ListsLookup(abs.contents, abs.elems, r.e);
      assert Full() ==> r.e.key in abs.contents;
      hide Lists, Sized, Hashed, Linked;
      if r.Insert? {
        answer := null;
        Insert(r.e, copying);
      } else {
        answer := Replace(r.e, copying);
      }
    }

    /** Any legal run of operations, however long, refines the same run on a finite map: it
        gives the same answers and ends in the same map, and the representation stays good. */
    method Run(rs: seq<Request<K>>, copying: seq<bool>) returns (answers: seq<Elem?<K>>)
      requires Valid() && AllLegal(abs.contents, rs) && |copying| == |rs|
      requires forall e :: e in Named(rs) ==> Detached(e)
      requires Ample(load) && AllRoom(abs.contents, rs, Limit(load, Prime(LAST)))
      modifies this, table, abs.elems`next, abs.elems`bucket, Named(rs)
      ensures Valid()
      ensures abs.contents == AfterAll(old(abs.contents), rs)
      ensures answers == Answers(old(abs.contents), rs)
      decreases |rs|
    {
      hide Shape, Placed, Prime, Limit, Sized, Hashed, Linked, Lists;
      answers := [];
      if rs != [] {
        NamedTail(rs);
        var answer := Perform(rs[0], copying[0]);
        answers := Run(rs[1..], copying[1..]);
        answers := [answer] + answers;
      }
    }

    // ----- HT_REP_IS_BAD_

    /** The pointers are sane enough for the debugging check to follow them. */
    ghost predicate Walkable()
      reads this, table, abs.elems
    {
      && 0.0 < load && primeIdx <= LAST
      && (table != null && tableLength != 0 ==> tableLength == table.Length && Shape(table, abs.chains, abs.elems))
    }

    /** What HT_REP_IS_BAD_ tests. */
    ghost predicate RepOk()
      requires 0.0 < load && primeIdx <= LAST
      reads this, abs.elems
    {
      if tableLength == 0 then table == null && nEntries == 0 && loadLimit == 0 && primeIdx == -1
      else
        && table != null && 0 <= primeIdx && 0 < loadLimit && nEntries <= loadLimit
        && tableLength == Prime(primeIdx) && loadLimit == Limit(load, tableLength)
        && (forall e {:trigger e.hash} :: e in abs.elems ==> e.hash == hashfn(e.key)) && Placed(abs.elems, tableLength)
        && nEntries == |abs.elems|
    }

    /** HT_REP_IS_BAD_ */
    method RepIsBad() returns (code: nat)
      requires Walkable()
      ensures code == 0 <==> RepOk()
    {
      hide Prime, Limit, BucketOf;
      if tableLength == 0 {
        if table == null && nEntries == 0 && loadLimit == 0 && primeIdx == -1 {
          return 0;
        }
        return 1;
      }
      if table == null || primeIdx < 0 || loadLimit == 0 {
        return 2;
      }
      if nEntries > loadLimit {
        return 3;
      }
      if tableLength != Prime(primeIdx) {
        return 4;
      }
      if loadLimit != Limit(load, tableLength) {
        return 5;
      }
      var n := 0;
      var i := 0;
      while i < tableLength
        invariant 0 <= i <= tableLength && n == Total(abs.chains, i)
        invariant GoodUpTo(i, 0)
      {
        var elm := table[i];
        ghost var j := 0;
        while elm != null
          invariant 0 <= j <= |abs.chains[i]| && elm == At(abs.chains[i], j) && n == Total(abs.chains, i) + j
          invariant GoodUpTo(i, j)
          decreases |abs.chains[i]| - j
        {
          if elm.hash != hashfn(elm.key) {
            return 1000 + i;
          }
          if BucketOf(elm.hash, tableLength) != i {
            return 10000 + i;
          }
          n := n + 1;
          elm := elm.next;
          j := j + 1;
        }
        i := i + 1;
      }
      ShapeCount(table, abs.chains, abs.elems);
      forall e | e in abs.elems
        ensures e.hash == hashfn(e.key) && BucketOf(e.hash, tableLength) == e.bucket
      {
        var l :| 0 <= l < |abs.chains[e.bucket]| && abs.chains[e.bucket][l] == e;
      }
      if n != nEntries {
        return 6;
      }
      return 0;
    }

    /** The elements before position j of chain b pass the check. */
    ghost predicate GoodUpTo(b: nat, j: nat)
      requires 0 < tableLength
      reads this, abs.elems, set k, l | 0 <= k < |abs.chains| && 0 <= l < |abs.chains[k]| :: abs.chains[k][l]
    {
      forall k, l {:trigger abs.chains[k][l]} :: 0 <= k < |abs.chains| && 0 <= l < |abs.chains[k]| && (k < b || (k == b && l < j)) ==>
        abs.chains[k][l].hash == hashfn(abs.chains[k][l].key) && BucketOf(abs.chains[k][l].hash, tableLength) == k
    }

    /** On a linked table that lists its map, the debugging check answers 0 exactly when
        the whole invariant holds. */
    lemma RepOkIsValid()
      requires Linked() && Lists(abs.contents, abs.elems) && 0.0 < load && primeIdx <= LAST
      ensures RepOk() <==> Valid()
    {
      hide Shape, Prime, Limit, BucketOf;
      ListsCount(abs.contents, abs.elems);
    }
  
    // ----- traversal

    /** `p` is the address of the pointer to the element at position i of chain b. */
    ghost predicate Points(p: Slot<K>, b: nat, i: nat)
      reads this
    {
      b < |abs.chains| && i < |abs.chains[b]| && p == SlotAt(abs.chains, b, i)
    }

    /** The loop that HT_START, HT_NEXT and HT_NEXT_RMV share: the first nonempty bucket
        from `from` on. */
    method Scan(from: nat) returns (p: Option<Slot<K>>, ghost b: nat)
      requires Valid() && (table != null ==> from <= tableLength)
      ensures p.None? ==> Flat(abs.chains, from, 0) == []
      ensures p.Some? ==> table != null && Points(p.value, b, 0) && p.value.Bucket? && Flat(abs.chains, from, 0) == Flat(abs.chains, b, 0)
    {
      hide Prime, Limit, BucketOf, Lists;
      var k := from;
      while k < tableLength
        invariant from <= k && (table != null ==> k <= tableLength)
        invariant Flat(abs.chains, from, 0) == Flat(abs.chains, k, 0)
      {
        if table[k] != null {
          assert k == BucketOf(table[k].hash, tableLength);  // HT_ASSERT_
          return Some(Bucket(k)), k;
        }
        assert abs.chains[k][0..] == [];
        k := k + 1;
      }
      return None, 0;
    }

    /** HT_START */
    method Start() returns (p: Option<Slot<K>>, ghost b: nat)
      requires Valid()
      ensures p.None? ==> Flat(abs.chains, 0, 0) == []
      ensures p.Some? ==> table != null && Points(p.value, b, 0) && Flat(abs.chains, 0, 0) == Flat(abs.chains, b, 0)
    {
      p, b := Scan(0);
    }

    /** HT_NEXT */
    method Next(p: Slot<K>, ghost b: nat, ghost i: nat) returns (q: Option<Slot<K>>, ghost b': nat, ghost i': nat)
      requires Valid() && table != null && Points(p, b, i)
      ensures q.None? ==> Flat(abs.chains, b, i + 1) == []
      ensures q.Some? ==> Points(q.value, b', i') && Flat(abs.chains, b, i + 1) == Flat(abs.chains, b', i')
    {
      hide Prime, Limit, BucketOf, Lists;
      var e := Deref(table, p);
      assert e == abs.chains[b][i] && e in abs.elems;
      if e.next != null {
        assert BucketOf(e.hash, tableLength) == BucketOf(e.next.hash, tableLength);  // HT_ASSERT_
        return Some(NextOf(e)), b, i + 1;
      }
      assert abs.chains[b][i + 1..] == [];
      assert b == BucketOf(e.hash, tableLength);
      q, b' := Scan(BucketOf(e.hash, tableLength) + 1);
      i' := 0;
    }

    /** HT_NEXT_RMV.  The element that is removed keeps its link. */
    method NextRmv(p: Slot<K>, ghost b: nat, ghost i: nat) returns (q: Option<Slot<K>>, ghost b': nat, ghost i': nat)
      requires Valid() && table != null && Points(p, b, i)
      modifies this`nEntries, this`abs, table, abs.elems`next
      ensures Valid() && abs.elems == old(abs.elems) - {old(abs.chains[b][i])}
      ensures old(abs.chains[b][i]).next == old(abs.chains[b][i].next)
      ensures q.None? ==> Flat(old(abs.chains), b, i + 1) == []
      ensures q.Some? ==> Points(q.value, b', i') && Flat(old(abs.chains), b, i + 1) == Flat(abs.chains, b', i')
    {
      hide Prime, Limit, BucketOf, Lists, Shape;
      var h := HashAt(p, b, i);
      ghost var chains := abs.chains;
      var _ := Detach(p, b, i);
      FlatWithout(chains, b, i);
      q, b', i' := Resume(p, h, b, i);
    }

    /** The end of HT_NEXT_RMV: `p` is already the address of the successor, if there is
        one in the chain. */
    method Resume(p: Slot<K>, h: nat, ghost b: nat, ghost i: nat) returns (q: Option<Slot<K>>, ghost b': nat, ghost i': nat)
      requires Valid() && table != null
      requires InRange(abs.chains, b, i) && p == SlotAt(abs.chains, b, i) && b == BucketOf(h, tableLength)
      ensures q.None? ==> Flat(abs.chains, b, i) == []
      ensures q.Some? ==> Points(q.value, b', i') && Flat(abs.chains, b, i) == Flat(abs.chains, b', i')
    {
      hide Prime, Limit, BucketOf, Lists;
      var e := Deref(table, p);
      assert e == At(abs.chains[b], i);
      if e != null {
        return Some(p), b, i;
      }
      assert abs.chains[b][i..] == [];
      q, b' := Scan(BucketOf(h, tableLength) + 1);
      i' := 0;
    }

    method HashAt(p: Slot<K>, ghost b: nat, ghost i: nat) returns (h: nat)
      requires Valid() && table != null && Points(p, b, i)
      ensures b == BucketOf(h, tableLength) && abs.chains[b][i] in abs.elems
      ensures p.Bucket? ==> p.b < table.Length
    {
      var e := Deref(table, p);
      assert e == abs.chains[b][i] && e in abs.elems;
      h := e.hash;
    }
  
    /** The loop `for (p = HT_START(); p; p = drop(*p) ? HT_NEXT_RMV(p) : HT_NEXT(p))`. */
    method Sweep(drop: Elem<K> -> bool) returns (visited: seq<Elem<K>>)
      requires Valid()
      modifies this`nEntries, this`abs, table, abs.elems`next
      ensures Valid() && VisitsOnce(visited, old(abs.elems))
      ensures abs.elems == old(abs.elems) - Dropped(visited, drop)
      ensures abs.contents == Kept(old(abs.contents), drop)
    {
      hide Shape, Lists, Placed, Prime, Limit, BucketOf, VisitsOnce, Dropped, Kept;
      VisitsAll();
      visited := SweepLoop(drop);
      ListsKept(old(abs.contents), old(abs.elems), visited, drop, abs.contents);
    }

    method SweepLoop(drop: Elem<K> -> bool) returns (visited: seq<Elem<K>>)
      requires Valid()
      modifies this`nEntries, this`abs, table, abs.elems`next
      ensures Valid() && visited == Flat(old(abs.chains), 0, 0)
      ensures abs.elems == old(abs.elems) - Dropped(visited, drop)
    {
      hide Table.Valid, Dropped, Flat, Sweeping, Points;
      visited := [];
      ghost var all, elems := Flat(abs.chains, 0, 0), abs.elems;
      ghost var i := 0;
      var p, b := Start();
      StartSweep(p, b, drop);
      while p.Some?
        invariant Valid() && Sweeping(all, elems, visited, drop, p, b, i)
        invariant table == old(table) && abs.elems <= old(abs.elems)
        decreases |all| - |visited|
      {
        p, visited, b, i := SweepTurn(p.value, visited, drop, all, elems, b, i);
      }
      EndSweep(all, elems, visited, drop, b, i);
    }

    /** The loop of Sweep at p: `visited` and what comes from there on are all elements that
        there were, and of the visited ones those are gone that `drop` answered for. */
    ghost predicate Sweeping(all: seq<Elem<K>>, elems: set<Elem<K>>, visited: seq<Elem<K>>, drop: Elem<K> -> bool, p: Option<Slot<K>>, b: nat, i: nat)
      reads this
    {
      && (p.Some? ==> table != null && Points(p.value, b, i) && visited + Flat(abs.chains, b, i) == all)
      && (p.None? ==> visited == all)
      && abs.elems == elems - Dropped(visited, drop)
    }

    lemma StartSweep(p: Option<Slot<K>>, b: nat, drop: Elem<K> -> bool)
      requires p.Some? ==> table != null && Points(p.value, b, 0) && Flat(abs.chains, b, 0) == Flat(abs.chains, 0, 0)
      requires p.None? ==> Flat(abs.chains, 0, 0) == []
      ensures Sweeping(Flat(abs.chains, 0, 0), abs.elems, [], drop, p, b, 0)
    {
    }

    lemma EndSweep(all: seq<Elem<K>>, elems: set<Elem<K>>, visited: seq<Elem<K>>, drop: Elem<K> -> bool, b: nat, i: nat)
      requires Sweeping(all, elems, visited, drop, None, b, i)
      ensures visited == all && abs.elems == elems - Dropped(visited, drop)
    {
    }

    method SweepTurn(p: Slot<K>, visited: seq<Elem<K>>, drop: Elem<K> -> bool, ghost all: seq<Elem<K>>, ghost elems: set<Elem<K>>, ghost b: nat, ghost i: nat)
      returns (q: Option<Slot<K>>, visited': seq<Elem<K>>, ghost b': nat, ghost i': nat)
      requires Valid() && Sweeping(all, elems, visited, drop, Some(p), b, i)
      modifies this`nEntries, this`abs, table, abs.elems`next
      ensures Valid() && Sweeping(all, elems, visited', drop, q, b', i') && abs.elems <= old(abs.elems)
      ensures |visited| < |visited'| && |visited| <= |all|
    {
      hide Table.Valid, Dropped, Flat;
      var e := Current(p, b, i);
      visited' := visited + [e];
      assert visited' + Flat(abs.chains, b, i + 1) == visited + Flat(abs.chains, b, i);
      DroppedMore(visited, e, drop);
      q, b', i' := Advance(p, e, drop, b, i);
    }

    /** On to the next element, with or without removing this one. */
    method Advance(p: Slot<K>, e: Elem<K>, drop: Elem<K> -> bool, ghost b: nat, ghost i: nat)
      returns (q: Option<Slot<K>>, ghost b': nat, ghost i': nat)
      requires Valid() && table != null && Points(p, b, i) && e == abs.chains[b][i]
      modifies this`nEntries, this`abs, table, abs.elems`next
      ensures Valid() && abs.elems == old(abs.elems) - (if drop(e) then {e} else {})
      ensures q.None? ==> Flat(old(abs.chains), b, i + 1) == []
      ensures q.Some? ==> Points(q.value, b', i') && Flat(old(abs.chains), b, i + 1) == Flat(abs.chains, b', i')
    {
      hide Shape, Lists, Placed, Prime, Limit, BucketOf;
      if drop(e) {
        q, b', i' := NextRmv(p, b, i);
      } else {
        q, b', i' := Next(p, b, i);
      }
    }

    /** HT_FOREACH_FN.  `drop` is the callback's answer for each element. */
    method ForEachFn(drop: Elem<K> -> bool) returns (visited: seq<Elem<K>>)
      requires Valid()
      modifies this`nEntries, this`abs, table, abs.elems`next
      ensures Valid() && visited == Flat(old(abs.chains), 0, 0) && VisitsOnce(visited, old(abs.elems))
      ensures |abs.chains| == |old(abs.chains)|
      ensures forall b :: 0 <= b < |abs.chains| ==> abs.chains[b] == Filter(old(abs.chains)[b], drop)
      ensures abs.contents == Kept(old(abs.contents), drop)
    {
      hide Shape, Lists, Placed, Prime, Limit, BucketOf, VisitsOnce, Kept;
      VisitsAll();
      visited := [];
      if table == null {
      } else {
        visited := FilterAll(drop);
      }
      ListsKept(old(abs.contents), old(abs.elems), visited, drop, abs.contents);
    }

    method FilterAll(drop: Elem<K> -> bool) returns (visited: seq<Elem<K>>)
      requires Valid() && table != null
      modifies this`nEntries, this`abs, table, abs.elems`next
      ensures Valid() && visited == Flat(old(abs.chains), 0, 0)
      ensures |abs.chains| == |old(abs.chains)|
      ensures forall b :: 0 <= b < |abs.chains| ==> abs.chains[b] == Filter(old(abs.chains)[b], drop)
      ensures abs.elems == old(abs.elems) - Dropped(visited, drop)
    {
      hide Table.Valid, Dropped, Flat, Filter;
      TableShape();
      visited := [];
      ghost var chains, elems := abs.chains, abs.elems;
      NoneDropped<K>(drop);
      var idx := 0;
      while idx < tableLength
        invariant 0 <= idx <= tableLength == |chains|
        invariant Valid() && table == old(table) && tableLength == old(tableLength) && abs.elems <= elems
        invariant FilteringAll(chains, elems, idx, visited, drop)
      {
        visited := FilterBucket(idx, visited, drop, chains, elems);
        idx := idx + 1;
      }
      assert Flat(chains, idx, 0) == [] by { FlatEnd(chains); }
      assert visited + [] == visited;
    }

    /** HT_FOREACH_FN after the first idx buckets. */
    ghost predicate FilteringAll(chains: Chains<K>, elems: set<Elem<K>>, idx: nat, visited: seq<Elem<K>>, drop: Elem<K> -> bool)
      reads this`abs
    {
      && visited + Flat(chains, idx, 0) == Flat(chains, 0, 0)
      && |abs.chains| == |chains|
      && (forall b {:trigger abs.chains[b]} :: 0 <= b < |chains| ==> abs.chains[b] == if b < idx then Filter(chains[b], drop) else chains[b])
      && abs.elems == elems - Dropped(visited, drop)
    }

    lemma TableShape()
      requires Valid() && table != null
      ensures tableLength == table.Length == |abs.chains|
    {
    }

    /** A turn of the outer loop of HT_FOREACH_FN. */
    method FilterBucket(idx: nat, visited: seq<Elem<K>>, drop: Elem<K> -> bool, ghost chains: Chains<K>, ghost elems: set<Elem<K>>) returns (visited': seq<Elem<K>>)
      requires Valid() && table != null && idx < tableLength == |chains| && FilteringAll(chains, elems, idx, visited, drop)
      modifies this`nEntries, this`abs, table, abs.elems`next
      ensures Valid() && FilteringAll(chains, elems, idx + 1, visited', drop) && abs.elems <= old(abs.elems)
    {
      hide Table.Valid, Dropped, Flat, Filter;
      var part := FilterChain(idx, drop);
      visited' := visited + part;
      FlatBucket(chains, idx);
      assert visited + part + Flat(chains, idx + 1, 0) == visited + (part + Flat(chains, idx + 1, 0));
      DroppedAll(visited, part, drop);
    }

    /** The inner loop of HT_FOREACH_FN: the callback sees the whole chain, and the chain
        loses what it drops. */
    method FilterChain(b: nat, drop: Elem<K> -> bool) returns (part: seq<Elem<K>>)
      requires Valid() && table != null && b < tableLength
      modifies this`nEntries, this`abs, table, abs.elems`next
      ensures Valid() && table == old(table) && part == old(abs.chains)[b]
      ensures abs.chains == old(abs.chains)[b := Filter(old(abs.chains)[b], drop)]
      ensures abs.elems == old(abs.elems) - Dropped(part, drop)
    {
      hide Table.Valid, Dropped, Filtering;
      TableShape();
      part := [];
      ghost var chains, elems := abs.chains, abs.elems;
      var p := Bucket(b);
      var e := First(b);
      NoneDropped<K>(drop);
      StartFiltering(b, drop, e);
      while e != null
        invariant Valid() && table == old(table) && tableLength == old(tableLength) && abs.elems <= old(abs.elems)
        invariant Filtering(chains, b, part, drop, p, e)
        invariant abs.elems == elems - Dropped(part, drop)
        decreases |chains[b]| - |part|
      {
        DroppedMore(part, e, drop);
        FilteringSoFar(chains, b, part, drop, p, e);
        p, e, part := FilterTurn(p, e, drop, b, part, chains);
      }
      EndFiltering(chains, b, part, drop, p);
    }

    lemma StartFiltering(b: nat, drop: Elem<K> -> bool, e: Elem?<K>)
      requires b < |abs.chains| && e == At(abs.chains[b], 0)
      ensures Filtering(abs.chains, b, [], drop, Bucket(b), e)
    {
      assert [] + abs.chains[b][0..] == abs.chains[b];
    }

    lemma FilteringSoFar(chains: Chains<K>, b: nat, part: seq<Elem<K>>, drop: Elem<K> -> bool, p: Slot<K>, e: Elem?<K>)
      requires Filtering(chains, b, part, drop, p, e)
      ensures |part| <= |chains[b]|
    {
    }

    lemma EndFiltering(chains: Chains<K>, b: nat, part: seq<Elem<K>>, drop: Elem<K> -> bool, p: Slot<K>)
      requires Filtering(chains, b, part, drop, p, null)
      ensures part == chains[b] && abs.chains == chains[b := Filter(chains[b], drop)]
    {
      hide Filter;
      assert |part| == |chains[b]| && chains[b][|part|..] == [];
      assert Filter(part, drop) + [] == Filter(part, drop);
    }

    /** The inner loop of HT_FOREACH_FN after it has seen `part` of chain b. */
    ghost predicate Filtering(chains: Chains<K>, b: nat, part: seq<Elem<K>>, drop: Elem<K> -> bool, p: Slot<K>, e: Elem?<K>)
      reads this
    {
      && b < |chains| && |part| <= |chains[b]| && part == chains[b][..|part|] && e == At(chains[b], |part|)
      && abs.chains == chains[b := Filter(part, drop) + chains[b][|part|..]]
      && p == SlotAt(abs.chains, b, |Filter(part, drop)|)
    }

    /** One turn of the inner loop of HT_FOREACH_FN. */
    method FilterTurn(p: Slot<K>, e: Elem<K>, drop: Elem<K> -> bool, b: nat, part: seq<Elem<K>>, ghost chains: Chains<K>)
      returns (p': Slot<K>, e': Elem?<K>, part': seq<Elem<K>>)
      requires Valid() && table != null && Filtering(chains, b, part, drop, p, e)
      modifies this`nEntries, this`abs, table, abs.elems`next
      ensures Valid() && Filtering(chains, b, part', drop, p', e') && part' == part + [e]
      ensures abs.elems == old(abs.elems) - (if drop(e) then {e} else {})
    {
      hide Shape, Lists, Placed, Prime, Limit, BucketOf, Sized, Hashed, Counted, Linked;
      ghost var kept := Filter(part, drop);
      FilterSnoc(part, e, drop);
      hide Filter;
      part' := part + [e];
      ghost var rest := chains[b][|part'|..];
      assert kept + chains[b][|part|..] == kept + [e] + rest;
      ghost var kept' := kept + (if drop(e) then [] else [e]);
      UpdateTwice(chains, b, kept + [e] + rest, kept' + rest);
      p', e', kept' := FilterOne(p, e, drop, b, kept, rest);
    }

    /** The same turn, as a step on the chain `kept + [e] + rest`. */
    method FilterOne(p: Slot<K>, e: Elem<K>, drop: Elem<K> -> bool, ghost b: nat, ghost kept: seq<Elem<K>>, ghost rest: seq<Elem<K>>)
      returns (p': Slot<K>, e': Elem?<K>, ghost kept': seq<Elem<K>>)
      requires Valid() && table != null && b < |abs.chains| && abs.chains[b] == kept + [e] + rest
      requires p == SlotAt(abs.chains, b, |kept|)
      modifies this`nEntries, this`abs, table, abs.elems`next
      ensures Valid() && kept' == kept + (if drop(e) then [] else [e])
      ensures abs.chains == old(abs.chains)[b := kept' + rest]
      ensures p' == SlotAt(abs.chains, b, |kept'|) && e' == At(rest, 0)
      ensures abs.elems == old(abs.elems) - (if drop(e) then {e} else {})
    {
      hide Lists, Placed, Prime, Limit, BucketOf;
      assert abs.chains[b][|kept|] == e;
      assert Without(abs.chains[b], |kept|) == kept + rest;
      assert abs.chains[b] == kept + [e] + rest;
      var next := e.next;
      hide Shape, Without;
      if drop(e) {
        var _ := Detach(p, b, |kept|);
        p', kept' := p, kept;
      } else {
        p', kept' := NextOf(e), kept + [e];
      }
      e' := next;
    }

    method First(b: nat) returns (e: Elem?<K>)
      requires Valid() && table != null && b < tableLength
      ensures e == At(abs.chains[b], 0)
    {
      e := table[b];
    }

    /** The element that the slot points at. */
    method Current(p: Slot<K>, ghost b: nat, ghost i: nat) returns (e: Elem<K>)
      requires Valid() && table != null && Points(p, b, i)
      ensures e == abs.chains[b][i] && e in abs.elems
      ensures Flat(abs.chains, b, i) == [e] + Flat(abs.chains, b, i + 1)
    {
      hide Lists, Placed, Prime, Limit, BucketOf, Sized, Hashed, Table.Counted, Flat;
      e := Deref(table, p);
      FlatFirst(abs.chains, b, i);
    }

    lemma VisitsAll()
      requires Valid()
      ensures VisitsOnce(Flat(abs.chains, 0, 0), abs.elems)
    {
      if table != null {
        FlatOnce(table, abs.chains, abs.elems, 0);
      }
    }
  }

  lemma FlatFirst<K>(chains: Chains<K>, b: nat, i: nat)
    requires b < |chains| && i < |chains[b]|
    ensures Flat(chains, b, i) == [chains[b][i]] + Flat(chains, b, i + 1)
  {
    var rest := Flat(chains, b + 1, 0);
    assert Flat(chains, b, i) == chains[b][i..] + rest && Flat(chains, b, i + 1) == chains[b][i + 1..] + rest;
    hide Flat;
    assert chains[b][i..] == [chains[b][i]] + chains[b][i + 1..];
  }

  lemma FlatBucket<K>(chains: Chains<K>, b: nat)
    requires b < |chains|
    ensures Flat(chains, b, 0) == chains[b] + Flat(chains, b + 1, 0)
  {
    assert chains[b][0..] == chains[b];
  }

  lemma FlatEnd<K>(chains: Chains<K>)
    ensures Flat(chains, |chains|, 0) == []
  {
  }

  lemma NoneDropped<K(!new)>(drop: Elem<K> -> bool)
    ensures Dropped([], drop) == {}
  {
  }

  lemma DroppedMore<K(!new)>(visited: seq<Elem<K>>, e: Elem<K>, drop: Elem<K> -> bool)
    ensures Dropped(visited + [e], drop) == Dropped(visited, drop) + (if drop(e) then {e} else {})
  {
  }

  lemma UpdateTwice<T>(s: seq<T>, i: nat, x: T, y: T)
    requires i < |s|
    ensures s[i := x][i := y] == s[i := y]
  {
  }

  lemma DroppedAll<K(!new)>(visited: seq<Elem<K>>, part: seq<Elem<K>>, drop: Elem<K> -> bool)
    ensures Dropped(visited + part, drop) == Dropped(visited, drop) + Dropped(part, drop)
  {
  }

  lemma {:induction false} FlatUnchanged<K>(chains: Chains<K>, chains': Chains<K>, b: nat)
    requires |chains'| == |chains| && forall k :: b <= k < |chains| ==> chains'[k] == chains[k]
    ensures Flat(chains', b, 0) == Flat(chains, b, 0)
    decreases |chains| - b
  {
    if b < |chains| {
      FlatUnchanged(chains, chains', b + 1);
    }
  }

  /** What is left to visit does not change when the current element is removed. */
  lemma FlatWithout<K>(chains: Chains<K>, b: nat, i: nat)
    requires b < |chains| && i < |chains[b]|
    ensures Flat(chains[b := Without(chains[b], i)], b, i) == Flat(chains, b, i + 1)
  {
    var chains' := chains[b := Without(chains[b], i)];
    FlatUnchanged(chains, chains', b + 1);
    assert chains'[b][i..] == chains[b][i + 1..];
  }
}
