/** A page of equal chunks of src/ext/OpenBSD_malloc_Linux.c: `struct pginfo` and the bitmap
    that says which chunks are free. */
module ChunkPage {

  /** `malloc_pagesize` */
  const PAGE: nat := 4096
  /** `MALLOC_BITS`: bits in a word of the bitmap. */
  const WORD: nat := 64
  /** `malloc_minsize` and `malloc_maxsize` */
  const MINSIZE: nat := 16
  const MAXSIZE: nat := 2048
  /** `sizeof(struct pginfo) - sizeof(u_long)` */
  const HEADER: nat := 24

  /** A one, shifted left by k. */
  function Pow2(k: nat): (r: nat)
    ensures 0 < r
  {
    if k == 0 then 1 else 2 * Pow2(k - 1)
  }

  /** x, shifted right by k. */
  function Shr(x: nat, k: nat): nat {
    if k == 0 then x else Shr(x / 2, k - 1)
  }

  // ----- buckets

  /** The buckets that are in use: 0 is for requests of size 0, j for sizes up to 2^j. */
  predicate IsBucket(b: nat) {
    b == 0 || 4 <= b <= 11
  }

  function ShiftOf(b: nat): nat {
    if b == 0 then 4 else b
  }

  function SizeOf(b: nat): nat {
    if b == 0 then 0 else Pow2(b)
  }

  /** How many chunks a page is divided into, those under the `struct pginfo` included. */
  function Positions(b: nat): nat {
    Shr(PAGE, ShiftOf(b))
  }

  /** Words in the bitmap, as `malloc_make_chunks` computes them. */
  function WordsOf(b: nat): nat {
    (Shr(PAGE, b) + WORD - 1) / WORD
  }

  function AdminSize(b: nat): nat {
    HEADER + 8 * WordsOf(b)
  }

  /** The `struct pginfo` is at the start of the page itself. */
  predicate InPage(b: nat) {
    b != 0 && Pow2(b) <= 2 * AdminSize(b)
  }

  /** How many chunks the `struct pginfo` covers. */
  function Stolen(b: nat): nat {
    if InPage(b) then Shr(AdminSize(b) + Pow2(b) - 1, b) else 0
  }

  /** A bucket's chunk size, positions in a page, bitmap words and stolen chunks. */
  ghost predicate Row(b: nat, size: nat, positions: nat, words: nat, stolen: nat) {
    && Pow2(ShiftOf(b)) == size && Positions(b) == positions && WordsOf(b) == words && Stolen(b) == stolen
    && (InPage(b) <==> 0 < stolen)
  }

  lemma Rows(b: nat)
    requires IsBucket(b)
    ensures b == 0 ==> Row(0, 16, 256, 64, 0)
    ensures b == 4 ==> Row(4, 16, 256, 4, 4)
    ensures b == 5 ==> Row(5, 32, 128, 2, 2)
    ensures b == 6 ==> Row(6, 64, 64, 1, 1)
    ensures b == 7 ==> Row(7, 128, 32, 1, 0)
    ensures b == 8 ==> Row(8, 256, 16, 1, 0)
    ensures b == 9 ==> Row(9, 512, 8, 1, 0)
    ensures b == 10 ==> Row(10, 1024, 4, 1, 0)
    ensures b == 11 ==> Row(11, 2048, 2, 1, 0)
  {
    match b {
      case 0 => Row0();
      case 4 => Row4();
      case 5 => Row5();
      case 6 => Row6();
      case 7 => Row7();
      case 8 => Row8();
      case 9 => Row9();
      case 10 => Row10();
      case 11 => Row11();
      case _ =>
    }
  }

  lemma Row0()
    ensures Row(0, 16, 256, 64, 0)
  {
  }

  lemma Row4()
    ensures Row(4, 16, 256, 4, 4)
  {
  }

  lemma Row5()
    ensures Row(5, 32, 128, 2, 2)
  {
  }

  lemma Row6()
    ensures Row(6, 64, 64, 1, 1)
  {
  }

  lemma Row7()
    ensures Row(7, 128, 32, 1, 0)
  {
  }

  lemma Row8()
    ensures Row(8, 256, 16, 1, 0)
  {
  }

  lemma Row9()
    ensures Row(9, 512, 8, 1, 0)
  {
  }

  lemma Row10()
    ensures Row(10, 1024, 4, 1, 0)
  {
  }

  lemma Row11()
    ensures Row(11, 2048, 2, 1, 0)
  {
  }

  /** What the sizes of the buckets have in common. */
  lemma BucketTable(b: nat)
    requires IsBucket(b)
    ensures Pow2(ShiftOf(b)) * Positions(b) == PAGE && Pow2(ShiftOf(b)) <= MAXSIZE
    ensures Positions(b) <= WORD * WordsOf(b) && Stolen(b) + 2 <= Positions(b)
    ensures InPage(b) <==> 4 <= b <= 6
    ensures InPage(b) ==> AdminSize(b) <= Stolen(b) * Pow2(ShiftOf(b)) < AdminSize(b) + Pow2(ShiftOf(b))
    ensures MINSIZE < AdminSize(b) <= MAXSIZE && WordsOf(b) <= WORD
    ensures b == 0 ==> 512 < AdminSize(b) <= 1024
    ensures b >= 7 ==> 16 < AdminSize(b) <= 32
  {
    hide Pow2, Shr, Positions, WordsOf, InPage, Stolen, ShiftOf;
    Rows(b);
  }

  /** Without the stolen chunks, as many words of the bitmap are in use as with them. */
  lemma SameWords(b: nat)
    requires IsBucket(b)
    ensures 0 < Positions(b) - Stolen(b) && (Positions(b) - 1) / WORD == (Positions(b) - Stolen(b) - 1) / WORD
  {
    hide Pow2, Shr, Positions, WordsOf, InPage, Stolen, ShiftOf;
    Rows(b);
  }

  lemma {:induction false} Pow2Grows(j: nat, k: nat)
    requires j <= k
    ensures Pow2(j) <= Pow2(k)
  {
    if j < k {
      Pow2Grows(j, k - 1);
    }
  }

  /** Bucket j is the one for requests of this size. */
  ghost predicate Fits(size: nat, j: nat) {
    if size == 0 then j == 0
    else if size <= MINSIZE then j == 4
    else 0 < j && Pow2(j - 1) < size <= Pow2(j)
  }

  lemma FitsIsUnique(size: nat, j: nat, k: nat)
    requires Fits(size, j) && Fits(size, k)
    ensures j == k
  {
    if size > MINSIZE {
      if j < k {
        Pow2Grows(j, k - 1);
      } else if k < j {
        Pow2Grows(k, j - 1);
      }
    }
  }

  /** "Find the right bucket" of `malloc_bytes`. */
  method FindBucket(request: nat) returns (j: nat)
    requires request <= MAXSIZE
    ensures Fits(request, j) && IsBucket(j) && request <= SizeOf(j)
  {
    var size := if request != 0 && request < MINSIZE then MINSIZE else request;
    if size == 0 {
      return 0;
    }
    j := 1;
    var ii := size - 1;
    assert Pow2(0) == 1;
    while ii / 2 != 0
      invariant 0 < j && 0 < ii && Pow2(j - 1) * ii <= size - 1 < Pow2(j - 1) * (ii + 1)
      decreases ii
    {
      ghost var half := ii / 2;
      assert Pow2(j) * half <= Pow2(j - 1) * ii && Pow2(j - 1) * (ii + 1) <= Pow2(j) * (half + 1) by {
        Halved(Pow2(j - 1), ii);
      }
      ii := ii / 2;
      j := j + 1;
    }
    assert Pow2(j) == 2 * Pow2(j - 1);
    Bounded(size, j);
  }

  lemma Multiply(i: nat, j: nat, p: nat)
    requires i <= j
    ensures i * p <= j * p
  {
  }

  lemma Halved(p: nat, ii: nat)
    ensures 2 * p * (ii / 2) <= p * ii && p * (ii + 1) <= 2 * p * (ii / 2 + 1)
  {
    var h := ii / 2;
    assert ii == 2 * h || ii == 2 * h + 1;
    assert 2 * p * h == p * (2 * h) && 2 * p * (h + 1) == p * (2 * h + 2);
  }

  lemma Bounded(size: nat, j: nat)
    requires 0 < j && MINSIZE <= size <= MAXSIZE && Pow2(j - 1) < size <= Pow2(j)
    ensures 4 <= j <= 11 && (size == MINSIZE ==> j == 4)
  {
    assert Pow2(3) == 8 && Pow2(4) == 16 && Pow2(11) == 2048;
    if j < 4 {
      Pow2Grows(j, 3);
    } else if j > 11 {
      Pow2Grows(11, j - 1);
    } else if j > 4 {
      Pow2Grows(4, j - 1);
    }
  }

  // ----- the bitmap

  /** A word as its bits, least significant first. */
  type Words = seq<seq<bool>>

  ghost predicate IsBitmap(bits: Words, n: nat) {
    |bits| == n && forall w {:trigger bits[w]} :: 0 <= w < n ==> |bits[w]| == WORD
  }

  predicate Bit(bits: Words, q: nat) {
    q / WORD < |bits| && q % WORD < |bits[q / WORD]| && bits[q / WORD][q % WORD]
  }

  /** `bits` with bit q set to v. */
  function WithBit(bits: Words, q: nat, v: bool): Words
    requires q / WORD < |bits| && |bits[q / WORD]| == WORD
  {
    bits[q / WORD := bits[q / WORD][q % WORD := v]]
  }

  lemma BitOf(bits: Words, n: nat, q: nat, v: bool)
    requires IsBitmap(bits, n) && q < n * WORD
    ensures q / WORD < n && IsBitmap(WithBit(bits, q, v), n)
    ensures Bit(WithBit(bits, q, v), q) == v
    ensures forall p: nat {:trigger Bit(WithBit(bits, q, v), p)} :: p != q ==> Bit(WithBit(bits, q, v), p) == Bit(bits, p)
  {
    forall p: nat | p != q
      ensures Bit(WithBit(bits, q, v), p) == Bit(bits, p)
    {
      assert p == (p / WORD) * WORD + p % WORD && q == (q / WORD) * WORD + q % WORD;
    }
  }

  /** How many of the first n bits are set. */
  ghost function Count(bits: Words, n: nat): (c: nat)
    ensures c <= n
  {
    if n == 0 then 0 else Count(bits, n - 1) + (if Bit(bits, n - 1) then 1 else 0)
  }

  lemma {:induction false} CountAgrees(b: Words, c: Words, n: nat)
    requires forall q: nat :: q < n ==> Bit(b, q) == Bit(c, q)
    ensures Count(b, n) == Count(c, n)
  {
    if n != 0 {
      CountAgrees(b, c, n - 1);
    }
  }

  lemma {:induction false} CountFlip(b: Words, c: Words, n: nat, q: nat)
    requires q < n && Bit(b, q) && !Bit(c, q) && forall p: nat :: p != q ==> Bit(b, p) == Bit(c, p)
    ensures Count(b, n) == Count(c, n) + 1
  {
    if q == n - 1 {
      CountAgrees(b, c, n - 1);
    } else {
      CountFlip(b, c, n - 1, q);
    }
  }

  lemma {:induction false} CountGrows(b: Words, m: nat, n: nat)
    requires m <= n
    ensures Count(b, m) <= Count(b, n)
  {
    if m < n {
      CountGrows(b, m, n - 1);
    }
  }

  lemma {:induction false} CountZero(b: Words, m: nat, n: nat)
    requires m <= n && forall q: nat :: m <= q < n ==> !Bit(b, q)
    ensures Count(b, n) == Count(b, m)
  {
    if m < n {
      CountZero(b, m, n - 1);
    }
  }

  /** None, or all, of the bits from s to n are set. */
  lemma {:induction false} Extremes(b: Words, s: nat, n: nat)
    requires s <= n && forall q: nat :: q < s ==> !Bit(b, q)
    ensures Count(b, n) <= n - s
    ensures Count(b, n) == 0 <==> forall q: nat :: s <= q < n ==> !Bit(b, q)
    ensures Count(b, n) == n - s <==> forall q: nat :: s <= q < n ==> Bit(b, q)
  {
    if s < n {
      Extremes(b, s, n - 1);
    } else {
      CountZero(b, 0, n);
    }
  }

  /** The positions from s to n whose bits are clear. */
  ghost function Used(b: Words, s: nat, n: nat): (used: set<nat>)
    ensures forall q: nat {:trigger q in used} :: q in used <==> s <= q < n && !Bit(b, q)
  {
    set q: nat | s <= q < n && !Bit(b, q)
  }

  lemma UsedExtremes(b: Words, s: nat, n: nat)
    requires s <= n && forall q: nat :: q < s ==> !Bit(b, q)
    ensures Count(b, n) == 0 <==> Used(b, s, n) == Used([], s, n)
    ensures Count(b, n) == n - s <==> Used(b, s, n) == {}
  {
    Extremes(b, s, n);
    hide Count, Used;
    if Used(b, s, n) == {} {
      forall q: nat | s <= q < n ensures Bit(b, q) { assert q !in Used(b, s, n); }
    }
    if Used(b, s, n) == Used([], s, n) {
      forall q: nat | s <= q < n ensures !Bit(b, q) { assert q in Used([], s, n); }
    }
  }

  lemma {:induction false} CountTail(b: Words, s: nat, n: nat)
    requires s <= n && forall q: nat :: q < n ==> (Bit(b, q) <==> s <= q)
    ensures Count(b, n) == n - s
  {
    if s < n {
      CountTail(b, s, n - 1);
    } else {
      CountZero(b, 0, n);
    }
  }

  // ----- searching the bitmap

  /** Words from w on are all that is left to search for a set bit. */
  lemma SomeWord(bits: Words, nw: nat, w: nat, n: nat)
    requires IsBitmap(bits, nw) && n <= nw * WORD && 0 < Count(bits, n)
    requires forall q: nat :: q < w * WORD ==> !Bit(bits, q)
    ensures w * WORD < n && w < nw
  {
    if n <= w * WORD {
      CountZero(bits, 0, n);
    }
  }

  /** The word is 0. */
  predicate IsZero(word: seq<bool>) {
    forall k :: 0 <= k < |word| ==> !word[k]
  }

  lemma ZeroWord(bits: Words, nw: nat, w: nat)
    requires IsBitmap(bits, nw) && w < nw && IsZero(bits[w])
    ensures forall q: nat :: w * WORD <= q < (w + 1) * WORD ==> !Bit(bits, q)
  {
    forall q: nat | w * WORD <= q < (w + 1) * WORD
      ensures !Bit(bits, q)
    {
      assert q / WORD == w;
    }
  }

  lemma Place(w: nat, k: nat)
    requires k < WORD
    ensures (w * WORD + k) / WORD == w && (w * WORD + k) % WORD == k
  {
  }

  /** "Find first word of bitmap which isn't empty" and "find that bit" of `malloc_bytes`:
      the first set bit, which is among the first n although the bits from n on may be
      anything. */
  method FirstSet(bits: Words, ghost nw: nat, ghost n: nat) returns (w: nat, k: nat)
    requires IsBitmap(bits, nw) && n <= nw * WORD && 0 < Count(bits, n)
    ensures k < WORD && w < nw && Bit(bits, w * WORD + k) && w * WORD + k < n && Count(bits, w * WORD + k) == 0
  {
    hide Count;
    w := 0;
    SomeWord(bits, nw, w, n);
    while IsZero(bits[w])
      invariant w < nw && forall q: nat :: q < w * WORD ==> !Bit(bits, q)
      decreases nw - w
    {
      ZeroWord(bits, nw, w);
      w := w + 1;
      SomeWord(bits, nw, w, n);
    }
    k := 0;
    while !bits[w][k]
      invariant k < WORD && forall q: nat :: q < w * WORD + k ==> !Bit(bits, q)
      invariant exists j :: k <= j < WORD && bits[w][j]
      decreases WORD - k
    {
      Place(w, k);
      k := k + 1;
    }
    Place(w, k);
    ghost var q := w * WORD + k;
    CountNone(bits);
    if n <= q {
      CountZero(bits, 0, n);
    }
    CountZero(bits, 0, q);
  }

  lemma CountNone(bits: Words)
    ensures Count(bits, 0) == 0
  {
  }

  /** "Walk to a random position": i0 set bits further on.  The "chunk overflow" check, which
      goes by the count without the stolen chunks, never fires. */
  method Walk(bits: Words, w0: nat, k0: nat, i0: nat, total: nat, ghost nw: nat, ghost n: nat) returns (w: nat, k: nat)
    requires IsBitmap(bits, nw) && n <= nw * WORD && k0 < WORD && w0 < nw && w0 * WORD + k0 < n
    requires 0 < total && (n - 1) / WORD == (total - 1) / WORD
    requires Bit(bits, w0 * WORD + k0) && Count(bits, w0 * WORD + k0) + i0 < Count(bits, n)
    ensures k < WORD && w < nw && w * WORD + k < n
    ensures Bit(bits, w * WORD + k) && Count(bits, w * WORD + k) == Count(bits, w0 * WORD + k0) + i0
  {
    w, k := w0, k0;
    var i := i0;
    while i > 0
      invariant k < WORD && w < nw && w * WORD + k < n && 0 <= i <= i0
      invariant Count(bits, w * WORD + k + 1) + i == Count(bits, w0 * WORD + k0) + i0 + 1
      invariant i == 0 ==> Bit(bits, w * WORD + k)
      decreases n - (w * WORD + k)
    {
      ghost var q := w * WORD + k;
      assert q + 1 < n;
      k := k + 1;
      if k >= WORD {
        w := w + 1;
        k := 0;
      }
      assert w * WORD + k == q + 1;
      Place(w, k);
      Overflow(w, k, n);
      assert w <= (total - 1) / WORD;  // no "chunk overflow"
      if bits[w][k] {
        i := i - 1;
      }
    }
  }

  lemma Overflow(w: nat, k: nat, n: nat)
    requires w * WORD + k < n
    ensures w <= (n - 1) / WORD
  {
  }

  // ----- struct pginfo

  /** The chunks of a page of bucket b that can be handed out. */
  ghost function Chunks(b: nat): set<nat> {
    Used([], Stolen(b), Positions(b))
  }

  lemma IsChunk(b: nat, i: nat)
    ensures i in Chunks(b) <==> Stolen(b) <= i < Positions(b)
  {
    hide Stolen, Positions;
  }

  class PgInfo {
    ghost const bucket: nat
    const at: nat     // its own address
    const page: nat   // the index of its page
    const size: nat
    const shift: nat
    var next: PgInfo?
    var free: nat
    var total: nat
    var bits: Words

    /** The counters agree with the bitmap, and the chunks that the struct itself covers are
        never free.  Bits past the last chunk may be anything. */
    ghost predicate Good()
      reads this`free, this`total, this`bits
    {
      && IsBucket(bucket) && shift == ShiftOf(bucket) && size == SizeOf(bucket)
      && IsBitmap(bits, WordsOf(bucket))
      && total + Stolen(bucket) == Positions(bucket) && free == Count(bits, Positions(bucket))
      && forall q: nat :: q < Stolen(bucket) ==> !Bit(bits, q)
    }

    /** The chunks that are handed out. */
    ghost function Live(): set<nat>
      reads this`bits
    {
      Used(bits, Stolen(bucket), Positions(bucket))
    }

    constructor (ghost bucket: nat, at: nat, page: nat, size: nat, shift: nat, free: nat, total: nat, bits: Words)
      ensures this.bucket == bucket && this.at == at && this.page == page && this.size == size && this.shift == shift
      ensures this.free == free && this.total == total && this.bits == bits && next == null
    {
      this.bucket := bucket;
      this.at, this.page, this.size, this.shift := at, page, size, shift;
      this.free, this.total, this.bits, next := free, total, bits, null;
    }

    /** The part of `malloc_bytes` that takes a chunk off this page: the first free one, or
        with `malloc_guard` the free one that the random number says. */
    method Take(guard: bool, random: nat) returns (q: nat)
      requires Good() && 0 < free
      modifies this`free, this`bits
      ensures Good() && free == old(free) - 1
      ensures q in Chunks(bucket) - old(Live()) && Live() == old(Live()) + {q}
      ensures !guard ==> forall p :: p in Chunks(bucket) && p !in old(Live()) ==> q <= p
    {
      hide Positions, Stolen, Count, WordsOf, InPage, AdminSize, ShiftOf, Pow2, Shr;
      BucketTable(bucket);
      ghost var nw, n := WordsOf(bucket), Positions(bucket);
      var w, k := FirstSet(bits, nw, n);
      ghost var w0, k0 := w, k;
      if guard {
        SameWords(bucket);
        w, k := Walk(bits, w, k, random % free, total, nw, n);
      }
      q := w * WORD + k;
      Place(w, k);
      BitOf(bits, nw, q, false);
      ghost var was := bits;
      bits := WithBit(bits, q, false);
      free := free - 1;
      CountFlip(was, bits, n, q);
      if !guard {
        NoneBelow(was, q);
      }
    }

    /** The part of `free_bytes` that marks chunk i free, if it is not.  The struct stays good
        exactly if i is a chunk: a position under the struct itself looks handed out. */
    method Put(i: nat) returns (was: bool)
      requires Good() && i < Positions(bucket)
      modifies this`free, this`bits
      ensures Good() <==> i in Chunks(bucket)
      ensures was == old(i in Live() || i < Stolen(bucket)) && Live() == old(Live()) - {i}
      ensures free == if was then old(free) + 1 else old(free)
      ensures !was ==> bits == old(bits)
    {
      hide Positions, Stolen, Count, WordsOf, InPage, AdminSize, ShiftOf, Pow2, Shr;
      BucketTable(bucket);
      IsChunk(bucket, i);
      BitOf(bits, WordsOf(bucket), i, true);
      if bits[i / WORD][i % WORD] {
        assert Bit(bits, i);
        return false;
      }
      ghost var before := bits;
      bits := WithBit(bits, i, true);
      free := free + 1;
      CountFlip(bits, before, Positions(bucket), i);
      was := true;
      assert Bit(bits, i);
    }

    /** A page is full, or empty, exactly if its count of free chunks says so. */
    lemma FullOrEmpty()
      requires Good()
      ensures free == 0 <==> Live() == Chunks(bucket)
      ensures (free == total <==> Live() == {}) && 2 <= total
      ensures IsBucket(bucket) && shift == ShiftOf(bucket) && size == SizeOf(bucket)
    {
      hide Positions, Stolen, IsBitmap, Count, Bit, Used;
      BucketTable(bucket);
      UsedExtremes(bits, Stolen(bucket), Positions(bucket));
    }
  }

  lemma {:induction false} NoneBelow(bits: Words, q: nat)
    requires Count(bits, q) == 0
    ensures forall p: nat :: p < q ==> !Bit(bits, p)
  {
    if q != 0 {
      NoneBelow(bits, q - 1);
    }
  }

  /** The shift of the smallest chunks, which pages of the bucket for size 0 have. */
  method MinShift() returns (shift: nat)
    ensures shift == 4
  {
    shift := 1;
    var i := MINSIZE - 1;
    while i / 2 != 0
      invariant (i == 15 && shift == 1) || (i == 7 && shift == 2) || (i == 3 && shift == 3) || (i == 1 && shift == 4)
      decreases i
    {
      i := i / 2;
      shift := shift + 1;
    }
  }

  /** "Set all valid bits in the bitmap": the first n bits, in memory that may hold anything. */
  method SetAll(junk: Words, n: nat, ghost nw: nat) returns (bits: Words)
    requires IsBitmap(junk, nw) && n <= nw * WORD
    ensures IsBitmap(bits, nw) && forall q: nat :: q < n ==> Bit(bits, q)
  {
    bits := junk;
    var i := 0;
    while n - i >= WORD
      invariant 0 <= i <= n && i % WORD == 0 && IsBitmap(bits, nw)
      invariant forall q: nat :: q < i ==> Bit(bits, q)
    {
      ghost var was, w := bits, i / WORD;
      bits := bits[i / WORD := seq(WORD, _ => true)];
      i := i + WORD;
      forall q: nat | q < i
        ensures Bit(bits, q)
      {
        assert q < i - WORD ==> Bit(was, q) && q / WORD < w;
        assert q >= i - WORD ==> q / WORD == w;
      }
    }
    while i < n
      invariant 0 <= i <= n && IsBitmap(bits, nw)
      invariant forall q: nat :: q < i ==> Bit(bits, q)
    {
      BitOf(bits, nw, i, true);
      bits := WithBit(bits, i, true);
      i := i + 1;
    }
  }

  lemma StealSizes(b: nat)
    requires 4 <= b <= 6
    ensures b == 4 ==> Pow2(b) == 16 && AdminSize(b) == 56 && Stolen(b) == 4
    ensures b == 5 ==> Pow2(b) == 32 && AdminSize(b) == 40 && Stolen(b) == 2
    ensures b == 6 ==> Pow2(b) == 64 && AdminSize(b) == 32 && Stolen(b) == 1
  {
    hide Pow2, Shr, Positions, InPage, WordsOf, Stolen;
    Rows(b);
  }

  /** "Mark the ones we stole for ourselves". */
  method Steal(all: Words, b: nat, n: nat, ghost nw: nat) returns (bits: Words, free: nat)
    requires IsBitmap(all, nw) && n <= nw * WORD && forall q: nat :: q < n ==> Bit(all, q)
    requires 4 <= b <= 6 && Stolen(b) < n
    ensures IsBitmap(bits, nw) && free + Stolen(b) == n
    ensures forall q: nat :: q < n ==> (Bit(bits, q) <==> Stolen(b) <= q)
  {
    hide Stolen, Pow2, AdminSize;
    bits, free := all, n;
    var k: int, size := AdminSize(b), Pow2(b);
    StealSizes(b);
    var i := 0;
    while k > 0
      invariant 0 <= i <= Stolen(b) && free == n - i && IsBitmap(bits, nw)
      invariant (b == 4 ==> k == 56 - 16 * i) && (b == 5 ==> k == 40 - 32 * i) && (b == 6 ==> k == 32 - 64 * i)
      invariant forall q: nat :: q < n ==> (Bit(bits, q) <==> i <= q)
      decreases k
    {
      BitOf(bits, nw, i, false);
      bits := WithBit(bits, i, false);
      free := free - 1;
      k := k - size;
      i := i + 1;
    }
  }

  /** The part of `malloc_make_chunks` that sets up page `page` for bucket b, with the struct
      at `at`; `junk` is what the bitmap's memory contains. */
  method MakeInfo(b: nat, page: nat, at: nat, junk: Words) returns (bp: PgInfo)
    requires IsBucket(b) && IsBitmap(junk, WordsOf(b))
    ensures fresh(bp) && bp.Good() && bp.bucket == b && bp.at == at && bp.page == page && bp.next == null
    ensures bp.free == bp.total && 0 < bp.free && bp.Live() == {}
  {
    hide Positions, Count, WordsOf, InPage, AdminSize, Pow2, Shr;
    BucketTable(b);
    var shift := b;
    if b == 0 {
      shift := MinShift();
    }
    var n := Positions(b);
    var bits := SetAll(junk, n, WordsOf(b));
    var free := n;
    if InPage(b) {
      bits, free := Steal(bits, b, n, WordsOf(b));
    }
    CountTail(bits, Stolen(b), n);
    bp := new PgInfo(b, at, page, SizeOf(b), shift, free, free, bits);
  }

  // ----- the list of a bucket

  ghost function InfoAt(list: seq<PgInfo>, k: int): PgInfo? {
    if 0 <= k < |list| then list[k] else null
  }

  /** `head` is the bucket's slot of `page_dir`, which starts the list. */
  ghost predicate OnBucket(head: PgInfo?, list: seq<PgInfo>)
    reads list`next
  {
    && (forall i, j :: 0 <= i < j < |list| ==> list[i] != list[j])
    && head == InfoAt(list, 0)
    && (forall k {:trigger list[k].next} :: 0 <= k < |list| ==> list[k].next == InfoAt(list, k + 1))
  }

  /** "Page became non-full": the insertion of `free_bytes`, at the slot where its search
      stops. */
  method InsertInfo(head: PgInfo?, info: PgInfo, ghost list: seq<PgInfo>) returns (head': PgInfo, ghost k: nat)
    requires OnBucket(head, list) && info !in list
    modifies list`next, info`next
    ensures k <= |list| && OnBucket(head', list[..k] + [info] + list[k..])
  {
    var prev, cur := null, head;
    k := 0;
    while cur != null && cur.next != null && cur.next.page < info.page
      invariant k <= |list| && cur == InfoAt(list, k) && prev == InfoAt(list, k - 1)
      decreases |list| - k
    {
      prev, cur := cur, cur.next;
      k := k + 1;
    }
    PutInfo(list, k, info);
    info.next := cur;
    if prev == null {
      head' := info;
    } else {
      prev.next := info;
      head' := head;
    }
  }

  /** Where the pages are once `info` is at position k. */
  lemma PutInfo(list: seq<PgInfo>, k: nat, info: PgInfo)
    requires k <= |list| && info !in list && forall i, j :: 0 <= i < j < |list| ==> list[i] != list[j]
    ensures var list' := list[..k] + [info] + list[k..];
            && (forall i, j :: 0 <= i < j < |list'| ==> list'[i] != list'[j])
            && (forall i {:trigger list'[i]} :: 0 <= i < |list'| ==> list'[i] == if i < k then list[i] else if i == k then info else list[i - 1])
            && (forall i {:trigger InfoAt(list', i)} :: InfoAt(list', i) == if i < k then InfoAt(list, i) else if i == k then info else InfoAt(list, i - 1))
  {
  }

  /** "Find & remove this page in the queue". */
  method RemoveInfo(head: PgInfo?, info: PgInfo, ghost list: seq<PgInfo>, ghost at: nat) returns (head': PgInfo?)
    requires OnBucket(head, list) && at < |list| && list[at] == info
    modifies list`next
    ensures OnBucket(head', list[..at] + list[at + 1..])
  {
    var prev, cur := null, head;
    ghost var k := 0;
    while cur != info
      invariant k <= at && cur == InfoAt(list, k) && prev == InfoAt(list, k - 1)
      decreases at - k
    {
      prev, cur := cur, cur.next;
      k := k + 1;
    }
    SkipInfo(list, at);
    if prev == null {
      head' := info.next;
    } else {
      prev.next := info.next;
      head' := head;
    }
  }

  /** Where the others are once position `at` is gone. */
  lemma SkipInfo(list: seq<PgInfo>, at: nat)
    requires at < |list| && forall i, j :: 0 <= i < j < |list| ==> list[i] != list[j]
    ensures var list' := list[..at] + list[at + 1..];
            && (forall i, j :: 0 <= i < j < |list'| ==> list'[i] != list'[j])
            && (forall k {:trigger list'[k]} :: 0 <= k < |list'| ==> list'[k] == if k < at then list[k] else list[k + 1])
            && (forall k {:trigger InfoAt(list', k)} :: InfoAt(list', k) == if k < at then InfoAt(list, k) else InfoAt(list, k + 1))
  {
  }

  /** A new page goes to the front. */
  method PushInfo(head: PgInfo?, info: PgInfo, ghost list: seq<PgInfo>)
    requires OnBucket(head, list) && info !in list
    modifies info`next
    ensures OnBucket(info, [info] + list)
  {
    info.next := head;
  }

  /** A full page leaves, from the front. */
  method PopInfo(info: PgInfo, ghost list: seq<PgInfo>) returns (head': PgInfo?)
    requires OnBucket(info, list)
    modifies info`next
    ensures 0 < |list| && OnBucket(head', list[1..])
  {
    head' := info.next;
    info.next := null;
  }
}
