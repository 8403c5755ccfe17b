/** The BSD tail queue of src/ext/tor_queue.h.

    Every backward link of a tail queue is the ADDRESS of a "next" cell, not an
    entry: `tqe_prev` points at the cell that points at the entry, and `tqh_last`
    points at the last "next" cell of the queue.  `LAST` and `PREV` rely on the
    layout of the two structures: they read an entry's {next, prev} pair as if it
    were a head's {first, last} pair. */
module TailQueue {

  /** The address of a "next" cell: the `tqh_first` field of a head, or the
      `tqe_next` field of an entry. */
  datatype Cell = FirstOf(h: Head) | NextOf(e: Entry)

  class Entry {
    var next: Entry?  // tqe_next
    var prev: Cell    // tqe_prev

    constructor (anyCell: Cell)
      ensures next == null
    {
      next, prev := null, anyCell;
    }
  }

  /** The entry that the cell after position `k - 1` of `q` must hold. */
  ghost function At(q: seq<Entry>, k: int): Entry? {
    if 0 <= k < |q| then q[k] else null
  }

  ghost predicate Distinct(q: seq<Entry>) {
    forall i, j :: 0 <= i < j < |q| ==> q[i] != q[j]
  }

  /** The entry at position k is at no other. */
  lemma OnlyThere(q: seq<Entry>, k: int)
    requires Distinct(q)
    ensures 0 <= k < |q| ==> forall i {:trigger q[i]} :: 0 <= i < |q| && q[i] == q[k] ==> i == k
  {
  }

  /** Where the entries are once e is at position k. */
  lemma PutIn(q: seq<Entry>, k: nat, e: Entry)
    requires Distinct(q) && k <= |q| && e !in q
    ensures var q' := q[..k] + [e] + q[k..];
            && Distinct(q')
            && (forall i {:trigger q'[i]} :: 0 <= i < |q'| ==> q'[i] == if i < k then q[i] else if i == k then e else q[i - 1])
            && (forall i {:trigger At(q', i)} :: At(q', i) == if i < k then At(q, i) else if i == k then e else At(q, i - 1))
  {
  }

  /** Where the others are once the entry at position k is gone. */
  lemma TakenOut(q: seq<Entry>, k: nat)
    requires Distinct(q) && k < |q|
    ensures var q' := q[..k] + q[k + 1..];
            && Distinct(q')
            && (forall i {:trigger q'[i]} :: 0 <= i < |q'| ==> q'[i] == if i < k then q[i] else q[i + 1])
            && (forall i {:trigger At(q', i)} :: At(q', i) == if i < k then At(q, i) else At(q, i + 1))
  {
  }

  ghost function Reversed(q: seq<Entry>): (r: seq<Entry>)
    ensures |r| == |q|
    ensures forall i :: 0 <= i < |q| ==> r[i] == q[|q| - 1 - i]
  {
    seq(|q|, i requires 0 <= i < |q| => q[|q| - 1 - i])
  }

  /** The queue operations, as requests on a mathematical sequence. */
  datatype Op =
    | InsertHead(elm: Entry)
    | InsertTail(elm: Entry)
    | InsertAfter(at: nat, elm: Entry)
    | InsertBefore(at: nat, elm: Entry)
    | Remove(at: nat)
    | Replace(at: nat, elm: Entry)

  /** What the macros ask of their caller: a new element is not in the queue yet,
      and a list element is. */
  ghost predicate Applicable(q: seq<Entry>, op: Op) {
    match op
    case InsertHead(e) => e !in q
    case InsertTail(e) => e !in q
    case InsertAfter(k, e) => k < |q| && e !in q
    case InsertBefore(k, e) => k < |q| && e !in q
    case Remove(k) => k < |q|
    case Replace(k, e) => k < |q| && e !in q
  }

  ghost function Apply(q: seq<Entry>, op: Op): seq<Entry>
    requires Applicable(q, op)
  {
    match op
    case InsertHead(e) => [e] + q
    case InsertTail(e) => q + [e]
    case InsertAfter(k, e) => q[..k + 1] + [e] + q[k + 1..]
    case InsertBefore(k, e) => q[..k] + [e] + q[k..]
    case Remove(k) => q[..k] + q[k + 1..]
    case Replace(k, e) => q[k := e]
  }

  ghost predicate AllApplicable(q: seq<Entry>, ops: seq<Op>)
    decreases |ops|
  {
    ops == [] || (Applicable(q, ops[0]) && AllApplicable(Apply(q, ops[0]), ops[1..]))
  }

  ghost function ApplyAll(q: seq<Entry>, ops: seq<Op>): seq<Entry>
    requires AllApplicable(q, ops)
    decreases |ops|
  {
    if ops == [] then q else ApplyAll(Apply(q, ops[0]), ops[1..])
  }

  ghost function Elements(ops: seq<Op>): set<Entry> {
    set i | 0 <= i < |ops| && !ops[i].Remove? :: ops[i].elm
  }

  class Head {
    var first: Entry?  // tqh_first
    var last: Cell     // tqh_last
    ghost var q: seq<Entry>

    /** The address that `tqe_prev` of position k must hold; k == |q| is `tqh_last`. */
    ghost function CellAt(s: seq<Entry>, k: nat): Cell
      requires k <= |s|
    {
      if k == 0 then FirstOf(this) else NextOf(s[k - 1])
    }

    /** The cells in front of the entries once e is at position k. */
    lemma CellsPutIn(k: nat, e: Entry)
      requires k <= |q|
      ensures var q' := q[..k] + [e] + q[k..];
              forall i: nat {:trigger CellAt(q', i)} :: i <= |q'| ==>
                CellAt(q', i) == if i <= k then CellAt(q, i) else if i == k + 1 then NextOf(e) else CellAt(q, i - 1)
    {
    }

    /** The cells in front of the others once the entry at position k is gone. */
    lemma CellsTakenOut(k: nat)
      requires k < |q|
      ensures var q' := q[..k] + q[k + 1..];
              forall i: nat {:trigger CellAt(q', i)} :: i <= |q'| ==> CellAt(q', i) == if i <= k then CellAt(q, i) else CellAt(q, i + 1)
    {
    }

    ghost predicate Valid()
      reads this, q
    {
      && Distinct(q)
      && first == At(q, 0)
      && last == CellAt(q, |q|)
      && (forall i {:trigger q[i].next} :: 0 <= i < |q| ==> q[i].next == At(q, i + 1))
      && (forall i {:trigger q[i].prev} :: 0 <= i < |q| ==> q[i].prev == CellAt(q, i))
    }

    /** The entry that a "next" word points at. */
    function Deref(c: Cell): Entry?
      reads match c case FirstOf(h) => {h as object} case NextOf(e) => {e as object}
    {
      match c
      case FirstOf(h) => h.first
      case NextOf(e) => e.next
    }

    /** What LAST and PREV read behind a "next" word: the word that follows it.  After a
        head's `first` comes its `last`; after an entry's `next` comes its `prev`. */
    function TqhLast(c: Cell): Cell
      reads match c case FirstOf(h) => {h as object} case NextOf(e) => {e as object}
    {
      match c
      case FirstOf(h) => h.last
      case NextOf(e) => e.prev
    }

    /** TOR_TAILQ_INIT */
    constructor ()
      ensures Valid() && q == []
    {
      first := null;
      last := FirstOf(this);
      q := [];
    }

    method InsertHead(elm: Entry)
      requires Valid() && elm !in q
      modifies this, q, elm
      ensures Valid() && q == [elm] + old(q)
    {
      elm.next := first;
      if first != null {
        first.prev := NextOf(elm);
      } else {
        last := NextOf(elm);
      }
      first := elm;
      elm.prev := FirstOf(this);
      q := [elm] + q;
    }

    method InsertTail(elm: Entry)
      requires Valid() && elm !in q
      modifies this, q, elm
      ensures Valid() && q == old(q) + [elm]
    {
      elm.next := null;
      elm.prev := last;
      match last {  // *cell = elm
        case FirstOf(h) => h.first := elm;
        case NextOf(e) => e.next := elm;
      }
      last := NextOf(elm);
      q := q + [elm];
    }

    method InsertAfter(listelm: Entry, elm: Entry, ghost k: nat)
      requires Valid() && elm !in q && k < |q| && q[k] == listelm
      modifies this, q, elm
      ensures Valid() && q == old(q)[..k + 1] + [elm] + old(q)[k + 1..]
    {
      OnlyThere(q, k);
      OnlyThere(q, k + 1);
      PutIn(q, k + 1, elm);
      CellsPutIn(k + 1, elm);
      hide Distinct, At;
      elm.next := listelm.next;
      if elm.next != null {
        elm.next.prev := NextOf(elm);
      } else {
        last := NextOf(elm);
      }
      listelm.next := elm;
      elm.prev := NextOf(listelm);
      q := q[..k + 1] + [elm] + q[k + 1..];
    }

    method InsertBefore(listelm: Entry, elm: Entry, ghost k: nat)
      requires Valid() && elm !in q && k < |q| && q[k] == listelm
      modifies this, q, elm
      ensures Valid() && q == old(q)[..k] + [elm] + old(q)[k..]
    {
      OnlyThere(q, k);
      OnlyThere(q, k - 1);
      PutIn(q, k, elm);
      CellsPutIn(k, elm);
      hide Distinct, At;
      elm.prev := listelm.prev;
      elm.next := listelm;
      match listelm.prev {  // *cell = elm
        case FirstOf(h) => h.first := elm;
        case NextOf(e) => e.next := elm;
      }
      listelm.prev := NextOf(elm);
      q := q[..k] + [elm] + q[k..];
    }

    method Remove(elm: Entry, ghost k: nat)
      requires Valid() && k < |q| && q[k] == elm
      modifies this, q
      ensures Valid() && q == old(q)[..k] + old(q)[k + 1..]
    {
      OnlyThere(q, k - 1);
      OnlyThere(q, k + 1);
      TakenOut(q, k);
      CellsTakenOut(k);
      hide Distinct;
      if elm.next != null {
        elm.next.prev := elm.prev;
      } else {
        last := elm.prev;
      }
      match elm.prev {  // *cell = elm.next
        case FirstOf(h) => h.first := elm.next;
        case NextOf(e) => e.next := elm.next;
      }
      q := q[..k] + q[k + 1..];
    }

    method Replace(elm: Entry, elm2: Entry, ghost k: nat)
      requires Valid() && elm2 !in q && k < |q| && q[k] == elm
      modifies this, q, elm2
      ensures Valid() && q == old(q)[k := elm2]
    {
      elm2.next := elm.next;
      if elm2.next != null {
        elm2.next.prev := NextOf(elm2);
      } else {
        last := NextOf(elm2);
      }
      elm2.prev := elm.prev;
      match elm2.prev {  // *cell = elm2
        case FirstOf(h) => h.first := elm2;
        case NextOf(e) => e.next := elm2;
      }
      q := q[k := elm2];
    }

    /** TOR_TAILQ_LAST: the last entry, or NULL when the queue is empty. */
    method Last() returns (r: Entry?)
      requires Valid()
      ensures r == At(q, |q| - 1)
    {
      r := Deref(TqhLast(last));
    }

    /** TOR_TAILQ_PREV: the predecessor, or NULL for the first entry. */
    method Prev(elm: Entry, ghost k: nat) returns (r: Entry?)
      requires Valid() && k < |q| && q[k] == elm
      ensures r == At(q, k - 1)
    {
      r := Deref(TqhLast(elm.prev));
    }

    /** TOR_TAILQ_FOREACH */
    method Forward() returns (visited: seq<Entry>)
      requires Valid()
      ensures visited == q
    {
      visited := [];
      var x := first;
      while x != null
        invariant |visited| <= |q| && visited == q[..|visited|] && x == At(q, |visited|)
        decreases |q| - |visited|
      {
        visited := visited + [x];
        x := x.next;
      }
    }

    /** TOR_TAILQ_FOREACH_REVERSE */
    method Backward() returns (visited: seq<Entry>)
      requires Valid()
      ensures visited == Reversed(q)
    {
      visited := [];
      var x := Last();
      while x != null
        invariant |visited| <= |q| && x == At(q, |q| - 1 - |visited|)
        invariant visited == Reversed(q)[..|visited|]
        decreases |q| - |visited|
      {
        ghost var k := |q| - 1 - |visited|;
        visited := visited + [x];
        x := Prev(x, k);
      }
    }

    method Perform(op: Op)
      requires Valid() && Applicable(q, op)
      modifies this, q, if op.Remove? then {} else {op.elm}
      ensures Valid() && q == Apply(old(q), op)
    {
      match op
      case InsertHead(e) => InsertHead(e);
      case InsertTail(e) => InsertTail(e);
      case InsertAfter(k, e) => var l := Nth(k); InsertAfter(l, e, k);
      case InsertBefore(k, e) => var l := Nth(k); InsertBefore(l, e, k);
      case Remove(k) => var l := Nth(k); Remove(l, k);
      case Replace(k, e) => var l := Nth(k); Replace(l, e, k);
    }

    method Nth(k: nat) returns (r: Entry)
      requires Valid() && k < |q|
      ensures r == q[k]
    {
      r := first;
      for i := 0 to k
        invariant r == q[i]
      {
        r := r.next;
      }
    }

    /** Any script of operations has on the linked structure the effect that it has on a
        sequence: the refinement holds over whole runs. */
    method Run(ops: seq<Op>)
      requires Valid() && AllApplicable(q, ops)
      modifies this, q, Elements(ops)
      ensures Valid() && q == ApplyAll(old(q), ops)
      decreases |ops|
    {
      hide Head.Valid, Apply, Applicable, Elements;
      if ops != [] {
        ElementsTail(ops);
        ApplyMembers(q, ops[0]);
        Perform(ops[0]);
        Run(ops[1..]);
      }
    }
  }

  lemma ApplyMembers(q: seq<Entry>, op: Op)
    requires Applicable(q, op)
    ensures var r := Apply(q, op); forall i :: 0 <= i < |r| ==> r[i] in q || (!op.Remove? && r[i] == op.elm)
  {
  }

  lemma ElementsTail(ops: seq<Op>)
    requires ops != []
    ensures Elements(ops[1..]) <= Elements(ops) && (!ops[0].Remove? ==> ops[0].elm in Elements(ops))
  {
    assert !ops[0].Remove? ==> ops[0].elm in Elements(ops);
    forall e | e in Elements(ops[1..])
      ensures e in Elements(ops)
    {
      var i :| 0 <= i < |ops[1..]| && !ops[1..][i].Remove? && ops[1..][i].elm == e;
      assert ops[i + 1].elm == e;
    }
  }
}
