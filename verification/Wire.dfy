/** What the generated codecs of src/trunnel share: bytes on the wire, the three-valued
    result of a parser, and the write cursor of an encoder. */
module Wire {

  type byte = x: int | 0 <= x < 0x100
  type u16 = x: int | 0 <= x < 0x1_0000
  type u32 = x: int | 0 <= x < 0x1_0000_0000
  type Bytes = seq<byte>

  /** Network byte order. */
  function U16(v: u16): (b: Bytes)
    ensures |b| == 2
  {
    [v / 0x100, v % 0x100]
  }

  function U32(v: u32): (b: Bytes)
    ensures |b| == 4
  {
    [v / 0x100_0000, v / 0x1_0000 % 0x100, v / 0x100 % 0x100, v % 0x100]
  }

  /** The length of `b` as an 8-bit field holds it. */
  function Len8(b: Bytes): byte {
    |b| % 0x100
  }

  lemma Len8Exact(b: Bytes)
    ensures |b| < 0x100 ==> Len8(b) == |b|
  {
  }

  /** The length of `b` as a 16-bit field holds it. */
  function Len16(b: Bytes): u16 {
    |b| % 0x1_0000
  }

  lemma Len16Exact(b: Bytes)
    requires |b| < 0x1_0000
    ensures Len16(b) == |b|
  {
  }

  function GetU16(b: Bytes, i: nat): u16
    requires i + 2 <= |b|
  {
    var hi: int, lo: int := b[i], b[i + 1];
    hi * 0x100 + lo
  }

  function GetU32(b: Bytes, i: nat): u32
    requires i + 4 <= |b|
  {
    var x: int, y: int, z: int, w: int := b[i], b[i + 1], b[i + 2], b[i + 3];
    ((x * 0x100 + y) * 0x100 + z) * 0x100 + w
  }

  lemma ReadU16(b: Bytes, i: nat, v: u16)
    requires i + 2 <= |b|
    ensures b[i..i + 2] == U16(v) <==> GetU16(b, i) == v
  {
    var s := b[i..i + 2];
    assert s == [b[i], b[i + 1]];
    if GetU16(b, i) == v {
      assert v / 0x100 == b[i] && v % 0x100 == b[i + 1];
    }
  }

  lemma ReadU32(b: Bytes, i: nat, v: u32)
    requires i + 4 <= |b|
    ensures b[i..i + 4] == U32(v) <==> GetU32(b, i) == v
  {
    var s := b[i..i + 4];
    assert s == [b[i], b[i + 1], b[i + 2], b[i + 3]];
    if GetU32(b, i) == v {
      var x: int, y: int, z: int, w: int := b[i], b[i + 1], b[i + 2], b[i + 3];
      assert v % 0x100 == w && v / 0x100 == (x * 0x100 + y) * 0x100 + z;
      assert v / 0x100 % 0x100 == z && v / 0x1_0000 == x * 0x100 + y;
      assert v / 0x1_0000 % 0x100 == y && v / 0x100_0000 == x;
    }
  }

  /** Slices that follow each other. */
  lemma Cat(b: Bytes, i: nat, j: nat, k: nat)
    requires i <= j <= k <= |b|
    ensures b[i..j] + b[j..k] == b[i..k]
  {
  }

  lemma One(b: Bytes, i: nat)
    requires i < |b|
    ensures b[i..i + 1] == [b[i]]
  {
  }

  function Zeros(n: nat): (b: Bytes)
    ensures |b| == n
  {
    seq(n, _ => 0)
  }

  /** Arrays of fixed size in a struct. */
  type Block16 = b: Bytes | |b| == 16 witness seq(16, _ => 0)
  type Block20 = b: Bytes | |b| == 20 witness seq(20, _ => 0)
  type Block32 = b: Bytes | |b| == 32 witness seq(32, _ => 0)
  type Block64 = b: Bytes | |b| == 64 witness seq(64, _ => 0)

  /** n bytes were consumed (the result is n); there are too few bytes (-2); there is no way
      to go on from these bytes (-1). */
  datatype Parsed<T> = Ok(n: nat, value: T) | Truncated | Invalid {
    function Code(): int {
      match this
      case Ok(n, _) => n
      case Truncated => -2
      case Invalid => -1
    }
  }

  /** What more input can do to a result: only a truncated one can change. */
  predicate Settles<T(==)>(before: Parsed<T>, after: Parsed<T>) {
    (before.Ok? ==> after == before) && (before.Invalid? ==> after.Invalid?)
  }

  /** The result of an encoder for an object that passes its check or not, needs len bytes
      and fits its length fields or not. */
  function Outcome(checked: bool, len: nat, avail: nat, fits: bool): int {
    if !checked then -1 else if avail < len then -2 else if !fits then -1 else len
  }

  /** From `was` to `now`, nothing but the `avail` bytes at `off` was written. */
  ghost predicate Confined(now: Bytes, was: Bytes, off: nat, avail: nat) {
    |now| == |was| && forall i :: 0 <= i < |was| && !(off <= i < off + avail) ==> now[i] == was[i]
  }

  /** An encoder at work: `done` was written at the start of its space, and `was` is what
      the memory held before, which is still there outside of that space. */
  ghost predicate Writing(now: Bytes, was: Bytes, off: nat, avail: nat, done: Bytes) {
    && off + avail <= |now| && |done| <= avail && now[off..off + |done|] == done
    && Confined(now, was, off, avail)
  }

  /** What holds when an encoder returns: it stayed within its space, and wrote the whole
      encoding if it succeeded. */
  ghost predicate Encoded(now: Bytes, was: Bytes, off: nat, avail: nat, result: int, encoding: Bytes) {
    && Confined(now, was, off, avail)
    && (result >= 0 ==> result == |encoding| && off + result <= |now| && now[off..off + result] == encoding)
  }

  lemma StartWriting(now: Bytes, off: nat, avail: nat)
    requires off + avail <= |now|
    ensures Writing(now, now, off, avail, []) && Confined(now, now, off, avail)
  {
  }

  lemma WritingConfined(now: Bytes, was: Bytes, off: nat, avail: nat, done: Bytes)
    requires Writing(now, was, off, avail, done)
    ensures Confined(now, was, off, avail) && off + avail <= |now| && |done| <= avail
  {
  }

  lemma Refused(now: Bytes, was: Bytes, off: nat, avail: nat)
    requires Confined(now, was, off, avail)
    ensures forall r: int, e :: r < 0 ==> Encoded(now, was, off, avail, r, e)
  {
  }

  lemma DoneWriting(now: Bytes, was: Bytes, off: nat, avail: nat, done: Bytes)
    requires Writing(now, was, off, avail, done)
    ensures Encoded(now, was, off, avail, |done|, done)
  {
  }

  /** The work of an encoder that was called for the rest of the space of another. */
  lemma NestedWriting(now: Bytes, mid: Bytes, was: Bytes, off: nat, avail: nat, done: Bytes, result: int, more: Bytes)
    requires Writing(mid, was, off, avail, done) && Encoded(now, mid, off + |done|, avail - |done|, result, more)
    requires |done| + |more| <= avail || result < 0
    ensures Writing(now, was, off, avail, if result >= 0 then done + more else done) && Confined(now, was, off, avail)
  {
    assert now[off..off + |done|] == done;
    if result >= 0 {
      assert now[off..off + |done| + |more|] == now[off..off + |done|] + now[off + |done|..off + |done| + |more|];
    }
  }

  /** Stores the bytes at this place, and changes nothing else. */
  method Store(output: array<byte>, at: nat, bs: Bytes)
    requires at + |bs| <= output.Length
    modifies output
    ensures output[..] == old(output[..at]) + bs + old(output[at + |bs|..])
  {
    ghost var was := output[..];
    var i := 0;
    while i < |bs|
      invariant 0 <= i <= |bs| && output[..] == was[..at] + bs[..i] + was[at + i..]
    {
      output[at + i] := bs[i];
      Stored(was, at, bs, i, output[..]);
      i := i + 1;
    }
    assert bs[..i] == bs;
  }

  lemma Stored(was: Bytes, at: nat, bs: Bytes, i: nat, now: Bytes)
    requires i < |bs| && at + |bs| <= |was| && now == (was[..at] + bs[..i] + was[at + i..])[at + i := bs[i]]
    ensures now == was[..at] + bs[..i + 1] + was[at + i + 1..]
  {
  }

  lemma Extended(now: Bytes, mid: Bytes, was: Bytes, off: nat, avail: nat, done: Bytes, bs: Bytes)
    requires Writing(mid, was, off, avail, done) && |done| + |bs| <= avail
    requires now == mid[..off + |done|] + bs + mid[off + |done| + |bs|..]
    ensures Writing(now, was, off, avail, done + bs)
  {
    assert now[off..off + |done|] == mid[off..off + |done|];
    assert now[off..off + |done| + |bs|] == now[off..off + |done|] + bs;
  }

  lemma Overwritten(now: Bytes, mid: Bytes, was: Bytes, off: nat, avail: nat, done: Bytes, at: nat, bs: Bytes)
    requires Writing(mid, was, off, avail, done) && at + |bs| <= |done|
    requires now == mid[..off + at] + bs + mid[off + at + |bs|..]
    ensures Writing(now, was, off, avail, done[..at] + bs + done[at + |bs|..])
  {
    var front, back, rest := mid[..off + at], mid[off + at + |bs|..], |done| - at - |bs|;
    Splice(front, bs, back, off, rest);
    assert front[off..] == mid[off..off + |done|][..at];
    assert back[..rest] == mid[off..off + |done|][at + |bs|..];
  }

  lemma Splice(front: Bytes, bs: Bytes, back: Bytes, off: nat, rest: nat)
    requires off <= |front| && rest <= |back|
    ensures (front + bs + back)[off..|front| + |bs| + rest] == front[off..] + bs + back[..rest]
  {
  }

  /** If there is no room for the bytes, nothing happens; otherwise they are stored behind
      those that were. */
  method Put(output: array<byte>, off: nat, avail: nat, written: nat, bs: Bytes, ghost was: Bytes, ghost done: Bytes) returns (ok: bool)
    requires Writing(output[..], was, off, avail, done) && written == |done|
    modifies output
    ensures ok <==> written + |bs| <= avail
    ensures Writing(output[..], was, off, avail, if ok then done + bs else done) && Confined(output[..], was, off, avail)
    ensures ok && done == [] ==> Writing(output[..], was, off, avail, bs)
  {
    hide Writing, Confined;
    assert [] + bs == bs;
    ghost var mid := output[..];
    WritingConfined(mid, was, off, avail, done);
    ok := avail - written >= |bs|;
    if ok {
      Store(output, off + written, bs);
      Extended(output[..], mid, was, off, avail, done, bs);
      WritingConfined(output[..], was, off, avail, done + bs);
    }
  }

  /** Writes a length field back over what was put in its place. */
  method Patch(output: array<byte>, off: nat, avail: nat, at: nat, bs: Bytes, ghost was: Bytes, ghost done: Bytes)
    requires Writing(output[..], was, off, avail, done) && at + |bs| <= |done|
    modifies output
    ensures Writing(output[..], was, off, avail, done[..at] + bs + done[at + |bs|..])
  {
    hide Writing, Confined;
    ghost var mid := output[..];
    WritingConfined(mid, was, off, avail, done);
    Store(output, off + at, bs);
    Overwritten(output[..], mid, was, off, avail, done, at, bs);
  }

  // ----- counted arrays

  /** The loop of a parser over `count` elements that p parses. */
  function ParsedList<T>(p: Bytes -> Parsed<T>, b: Bytes, count: nat): (r: Parsed<seq<T>>)
    ensures r.Ok? ==> r.n <= |b| && |r.value| == count
  {
    if count == 0 then Ok(0, [])
    else
      match p(b)
      case Truncated => Truncated
      case Invalid => Invalid
      case Ok(n, e) => if n > |b| then Invalid else After(n, [e], ParsedList(p, b[n..], count - 1))
  }

  /** A result for what follows the first n bytes, which held the elements `es`. */
  function After<T>(n: nat, es: seq<T>, rest: Parsed<seq<T>>): Parsed<seq<T>> {
    match rest
    case Ok(m, fs) => Ok(n + m, es + fs)
    case Truncated => Truncated
    case Invalid => Invalid
  }

  lemma AfterNothing<T>(rest: Parsed<seq<T>>)
    ensures After(0, [], rest) == rest
  {
    if rest.Ok? {
      assert [] + rest.value == rest.value;
    }
  }

  lemma AfterAfter<T>(n: nat, es: seq<T>, m: nat, fs: seq<T>, rest: Parsed<seq<T>>)
    ensures After(n, es, After(m, fs, rest)) == After(n + m, es + fs, rest)
  {
    if rest.Ok? {
      assert es + fs + rest.value == es + (fs + rest.value);
    }
  }

  /** A turn of the loop: the next element ends the list, or joins those before it. */
  lemma ListStep<T>(p: Bytes -> Parsed<T>, b: Bytes, n: nat, es: seq<T>, count: nat)
    requires 0 < count && n <= |b|
    ensures var next := p(b[n..]);
            match next
            case Truncated => After(n, es, ParsedList(p, b[n..], count)) == Truncated
            case Invalid => After(n, es, ParsedList(p, b[n..], count)) == Invalid
            case Ok(m, e) => n + m <= |b| ==> After(n, es, ParsedList(p, b[n..], count)) == After(n + m, es + [e], ParsedList(p, b[n + m..], count - 1))
  {
    var next := p(b[n..]);
    if next.Ok? && n + next.n <= |b| {
      assert b[n..][next.n..] == b[n + next.n..];
      AfterAfter(n, es, next.n, [next.value], ParsedList(p, b[n + next.n..], count - 1));
    }
  }

  lemma AfterOk<T>(n: nat, es: seq<T>, p: Bytes -> Parsed<T>, b: Bytes)
    ensures After(n, es, ParsedList(p, b, 0)) == Ok(n, es)
  {
    assert es + [] == es;
  }

  /** p never claims more than there is, and more input changes no result but Truncated. */
  ghost predicate Settled<T(!new)>(p: Bytes -> Parsed<T>) {
    && (forall b :: p(b).Ok? ==> p(b).n <= |b|)
    && (forall b, c :: (p(b).Ok? ==> p(b + c) == p(b)) && (p(b).Invalid? ==> p(b + c).Invalid?))
  }

  lemma {:induction false} ListSettles<T(!new)>(p: Bytes -> Parsed<T>, b: Bytes, c: Bytes, count: nat)
    requires Settled(p)
    ensures ParsedList(p, b, count).Ok? ==> ParsedList(p, b + c, count) == ParsedList(p, b, count)
    ensures ParsedList(p, b, count).Invalid? ==> ParsedList(p, b + c, count).Invalid?
    decreases count
  {
    if count != 0 && p(b).Ok? {
      var n := p(b).n;
      assert p(b + c) == p(b);
      ListSettles(p, b[n..], c, count - 1);
      assert (b + c)[n..] == b[n..] + c;
    }
  }

  function ListEncoding<T>(enc: T -> Bytes, es: seq<T>): Bytes {
    if es == [] then [] else enc(es[0]) + ListEncoding(enc, es[1..])
  }

  lemma NoElements<T>(enc: T -> Bytes)
    ensures ListEncoding(enc, []) == []
  {
  }

  lemma {:induction false} ListAppend<T>(enc: T -> Bytes, es: seq<T>, e: T)
    ensures ListEncoding(enc, es + [e]) == ListEncoding(enc, es) + enc(e)
  {
    if es == [] {
      assert (es + [e])[1..] == [];
    } else {
      assert (es + [e])[1..] == es[1..] + [e];
      ListAppend(enc, es[1..], e);
    }
  }

  /** Parsed elements are good, and encode to the bytes they came from. */
  lemma {:induction false} ListEncodes<T(!new)>(p: Bytes -> Parsed<T>, enc: T -> Bytes, good: T -> bool, b: Bytes, count: nat)
    requires forall a :: p(a).Ok? ==> p(a).n <= |a| && enc(p(a).value) == a[..p(a).n] && good(p(a).value)
    requires ParsedList(p, b, count).Ok?
    ensures var r := ParsedList(p, b, count);
            ListEncoding(enc, r.value) == b[..r.n] && forall i :: 0 <= i < count ==> good(r.value[i])
    decreases count
  {
    if count != 0 {
      var n := p(b).n;
      var rest := ParsedList(p, b[n..], count - 1);
      ListEncodes(p, enc, good, b[n..], count - 1);
      assert ParsedList(p, b, count).value[1..] == rest.value;
      assert b[..n + rest.n] == b[..n] + b[n..][..rest.n];
    }
  }

  function Map<T, U>(f: T -> U, es: seq<T>): (r: seq<U>)
    ensures |r| == |es| && forall i :: 0 <= i < |es| ==> r[i] == f(es[i])
  {
    if es == [] then [] else [f(es[0])] + Map(f, es[1..])
  }

  /** Encoded elements come back, in their canonical form. */
  lemma {:induction false} ListReturns<T>(p: Bytes -> Parsed<T>, enc: T -> Bytes, canonical: T -> T, es: seq<T>, rest: Bytes)
    requires forall i, c {:trigger enc(es[i]) + c} :: 0 <= i < |es| ==> p(enc(es[i]) + c) == Ok(|enc(es[i])|, canonical(es[i]))
    ensures ParsedList(p, ListEncoding(enc, es) + rest, |es|) == Ok(|ListEncoding(enc, es)|, Map(canonical, es))
  {
    if es != [] {
      var tail := ListEncoding(enc, es[1..]) + rest;
      var b := ListEncoding(enc, es) + rest;
      assert b == enc(es[0]) + tail;
      assert b[|enc(es[0])|..] == tail;
      forall i, c {:trigger enc(es[1..][i]) + c} | 0 <= i < |es[1..]|
        ensures p(enc(es[1..][i]) + c) == Ok(|enc(es[1..][i])|, canonical(es[1..][i]))
      {
        assert es[1..][i] == es[i + 1];
        assert p(enc(es[i + 1]) + c) == Ok(|enc(es[i + 1])|, canonical(es[i + 1]));
      }
      ListReturns(p, enc, canonical, es[1..], rest);
    }
  }

  /** The loop of an encoder: the first failure ends it. */
  function ListResult<T>(result: (T, nat) -> int, es: seq<T>, avail: nat): int {
    if es == [] then 0
    else
      var r := result(es[0], avail);
      if r < 0 || avail < r then r else Plus(r, ListResult(result, es[1..], avail - r))
  }

  function Plus(written: nat, r: int): int {
    if r < 0 then r else written + r
  }

  lemma NoResult<T>(result: (T, nat) -> int, avail: nat)
    ensures ListResult(result, [], avail) == 0
  {
  }

  lemma FirstResult<T>(result: (T, nat) -> int, es: seq<T>, avail: nat)
    requires es != [] && result(es[0], avail) <= avail
    ensures ListResult(result, es, avail) == var r := result(es[0], avail); if r < 0 then r else Plus(r, ListResult(result, es[1..], avail - r))
  {
  }

  lemma PlusPlus(m: nat, n: nat, r: int)
    ensures Plus(m, Plus(n, r)) == Plus(m + n, r)
  {
  }

  /** If every element that has the space it needs is encoded, so is a list of them. */
  lemma {:induction false} ListFits<T>(result: (T, nat) -> int, enc: T -> Bytes, es: seq<T>, avail: nat)
    requires forall i, a: nat {:trigger result(es[i], a)} :: 0 <= i < |es| ==> result(es[i], a) == if a < |enc(es[i])| then -2 else |enc(es[i])|
    ensures ListResult(result, es, avail) == if avail < |ListEncoding(enc, es)| then -2 else |ListEncoding(enc, es)|
  {
    if es != [] {
      var r := result(es[0], avail);
      if r >= 0 {
        forall i, a: nat {:trigger result(es[1..][i], a)} | 0 <= i < |es[1..]|
          ensures result(es[1..][i], a) == if a < |enc(es[1..][i])| then -2 else |enc(es[1..][i])|
        {
          assert es[1..][i] == es[i + 1];
        }
        ListFits(result, enc, es[1..], avail - r);
      }
    }
  }
}
