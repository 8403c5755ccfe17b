/** The codec for SENDME cells of src/trunnel/sendme_cell.c, whose parser constrains a length
    that its encoder writes back. */
module SendmeCodec {
  import opened Wire

  /** `struct sendme_cell_st` */
  datatype Sendme = Sendme(version: byte, dataLen: u16, digest: Bytes, error: bool)

  function NewSendme(): Sendme {
    Sendme(0, 16, [], false)
  }

  predicate IsLength(n: nat) {
    n == 16 || n == 20
  }

  function CheckSendme(o: Sendme): bool {
    !o.error && (o.version == 0 || o.version == 1) && IsLength(o.dataLen)
  }

  function Body(o: Sendme): Bytes {
    if o.version == 1 then o.digest else []
  }

  predicate Fits(o: Sendme) {
    |Body(o)| < 0x1_0000
  }

  function Encoding(o: Sendme): (b: Bytes)
    ensures |b| == 3 + |Body(o)|
  {
    [o.version] + U16(Len16(Body(o))) + Body(o)
  }

  function ParsedSendme(b: Bytes): (r: Parsed<Sendme>)
    ensures r.Ok? ==> r.n <= |b|
  {
    if |b| < 1 then Truncated
    else if b[0] != 0 && b[0] != 1 then Invalid
    else if |b| < 3 then Truncated
    else
      var len: nat := GetU16(b, 1);
      if !IsLength(len) then Invalid
      else if |b| - 3 < len then Truncated
      else Ok(3 + len, Sendme(b[0], len, if b[0] == 1 then b[3..3 + len] else [], false))
  }

  lemma SendmeSettles(b: Bytes, c: Bytes)
    ensures Settles(ParsedSendme(b), ParsedSendme(b + c))
  {
    if 3 <= |b| {
      assert GetU16(b + c, 1) == GetU16(b, 1);
      var len: nat := GetU16(b, 1);
      if len <= |b| - 3 {
        assert (b + c)[3..3 + len] == b[3..3 + len];
      }
    }
  }

  /** Every proper prefix of what was consumed is too short. */
  lemma SendmePrefix(b: Bytes, k: nat)
    requires ParsedSendme(b).Ok? && k < ParsedSendme(b).n
    ensures ParsedSendme(b[..k]) == Truncated
  {
    hide ParsedSendme;
    SendmeSettles(b[..k], b[k..]);
    assert b[..k] + b[k..] == b;
  }

  /** What was encoded is accepted exactly if the version is 1 and the digest has one of the
      two lengths; everything else is refused for good.  In particular the encoder turns
      every cell of version 0 into bytes that the parser refuses. */
  lemma SendmeReturns(o: Sendme, rest: Bytes)
    requires CheckSendme(o) && Fits(o)
    ensures ParsedSendme(Encoding(o) + rest) ==
      if o.version == 1 && IsLength(|o.digest|) then Ok(|Encoding(o)|, Sendme(1, |o.digest|, o.digest, false)) else Invalid
  {
    hide U16, GetU16;
    var b := Encoding(o) + rest;
    assert b[1..3] == U16(Len16(Body(o)));
    ReadU16(b, 1, Len16(Body(o)));
    Len16Exact(Body(o));
    assert b[3..3 + |Body(o)|] == Body(o);
  }

  /** What was parsed encodes to the same bytes exactly if the version is 1: the body of a
      cell of version 0 is skipped, and gone. */
  lemma SendmeEncodes(b: Bytes)
    requires ParsedSendme(b).Ok?
    ensures var o := ParsedSendme(b).value;
            CheckSendme(o) && Fits(o) && (Encoding(o) == b[..ParsedSendme(b).n] <==> o.version == 1)
  {
    hide U16, GetU16;
    var o, n := ParsedSendme(b).value, ParsedSendme(b).n;
    if o.version == 1 {
      Len16Exact(Body(o));
      ReadU16(b, 1, o.dataLen);
      One(b, 0);
      Cat(b, 0, 1, 3);
      Cat(b, 0, 3, n);
    }
  }

  /** The space that the encoder needs, or -1 for a failed check. */
  method SendmeEncodedLen(o: Sendme) returns (result: int)
    ensures result == if CheckSendme(o) then |Encoding(o)| else -1
  {
    if !CheckSendme(o) {
      return -1;
    }
    result := 1;
    result := result + 2;
    if o.version == 1 {
      result := result + |o.digest|;
    }
  }

  method EncodeSendme(output: array<byte>, off: nat, avail: nat, o: Sendme) returns (result: int)
    requires off + avail <= output.Length
    modifies output
    ensures result == Outcome(CheckSendme(o), |Encoding(o)|, avail, Fits(o))
    ensures Encoded(output[..], old(output[..]), off, avail, result, Encoding(o))
  {
    hide Writing, Encoded, Encoding, U16, Len16;
    ghost var was := output[..];
    StartWriting(was, off, avail);
    Refused(was, was, off, avail);
    if !CheckSendme(o) {
      return -1;
    }
    var written := 0;
    ghost var done: Bytes := [];
    var ok := Put(output, off, avail, written, [o.version], was, done);
    if !ok { Refused(output[..], was, off, avail); return -2; }
    written, done := written + 1, [o.version];
    ok := Put(output, off, avail, written, U16(o.dataLen), was, done);
    if !ok { Refused(output[..], was, off, avail); return -2; }
    written, done := written + 2, done + U16(o.dataLen);
    var writtenBeforeUnion := written;
    if o.version == 1 {
      ok := Put(output, off, avail, written, o.digest, was, done);
      if !ok { Refused(output[..], was, off, avail); return -2; }
      written := written + |o.digest|;
    }
    assert done + [] == done;
    done := done + Body(o);
    if written - writtenBeforeUnion > 0xffff {
      Refused(output[..], was, off, avail);
      return -1;
    }
    Len16Exact(Body(o));
    Patch(output, off, avail, 1, U16(written - writtenBeforeUnion), was, done);
    Patched(o);
    DoneWriting(output[..], was, off, avail, Encoding(o));
    return written;
  }

  /** Writing the length back makes the encoding of what was put out. */
  lemma Patched(o: Sendme)
    ensures var put := [o.version] + U16(o.dataLen) + Body(o); put[..1] + U16(Len16(Body(o))) + put[1 + 2..] == Encoding(o)
  {
  }

  method ParseSendme(input: Bytes) returns (result: int, obj: Sendme)
    ensures result == ParsedSendme(input).Code() && (result >= 0 ==> obj == ParsedSendme(input).value)
  {
    hide GetU16;
    var ptr, remaining := 0, |input|;
    obj := NewSendme();
    if remaining < 1 { return -2, obj; }
    obj := obj.(version := input[ptr]);
    remaining, ptr := remaining - 1, ptr + 1;
    if !(obj.version == 0 || obj.version == 1) { return -1, obj; }
    if remaining < 2 { return -2, obj; }
    obj := obj.(dataLen := GetU16(input, ptr));
    remaining, ptr := remaining - 2, ptr + 2;
    if !IsLength(obj.dataLen) { return -1, obj; }
    if remaining < obj.dataLen { return -2, obj; }
    var remainingAfter := remaining - obj.dataLen;
    remaining := obj.dataLen;
    if obj.version == 0 {
      ptr, remaining := ptr + remaining, 0;
    } else {
      obj := obj.(digest := input[ptr..ptr + remaining]);
      ptr, remaining := ptr + remaining, 0;
    }
    remaining := remainingAfter;
    result := |input| - remaining;
  }
}
