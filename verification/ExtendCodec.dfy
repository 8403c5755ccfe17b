/** The codec for EXTEND2 cells of src/trunnel/ed25519_cert.c, the format of section 5.1.2
    of Tor's tor-spec. */
module ExtendCodec {
  import opened Wire

  const LS_IPV4: byte := 0
  const LS_IPV6: byte := 1
  const LS_LEGACY_ID: byte := 2
  const LS_ED25519_ID: byte := 3

  // ----- link_specifier

  /** `struct link_specifier_st`.  The type selects which fields of the union are in use. */
  datatype LinkSpecifier = LinkSpecifier(lsType: byte, lsLen: byte, ipv4Addr: u32, ipv4Port: u16, ipv6Addr: Block16, ipv6Port: u16,
                                         legacyId: Block20, ed25519Id: Block32, unrecognized: Bytes, error: bool)

  function NewLinkSpecifier(): LinkSpecifier {
    LinkSpecifier(0, 0, 0, 0, Zeros(16), 0, Zeros(20), Zeros(32), [], false)
  }

  function CheckLinkSpecifier(o: LinkSpecifier): bool {
    !o.error
  }

  function Body(o: LinkSpecifier): Bytes {
    if o.lsType == LS_IPV4 then U32(o.ipv4Addr) + U16(o.ipv4Port)
    else if o.lsType == LS_IPV6 then o.ipv6Addr + U16(o.ipv6Port)
    else if o.lsType == LS_LEGACY_ID then o.legacyId
    else if o.lsType == LS_ED25519_ID then o.ed25519Id
    else o.unrecognized
  }

  /** The body fits the length field. */
  predicate Fits(o: LinkSpecifier) {
    |Body(o)| < 0x100
  }

  /** The bytes of a link specifier: the length is that of the body, whatever `lsLen` says. */
  function Encoding(o: LinkSpecifier): (b: Bytes)
    ensures |b| == 2 + |Body(o)|
  {
    [o.lsType, Len8(Body(o))] + Body(o)
  }

  /** What comes back from the wire: the true length, and zeros in what is not in use. */
  function Canonical(o: LinkSpecifier): LinkSpecifier {
    var n := NewLinkSpecifier().(lsType := o.lsType, lsLen := Len8(Body(o)));
    if o.lsType == LS_IPV4 then n.(ipv4Addr := o.ipv4Addr, ipv4Port := o.ipv4Port)
    else if o.lsType == LS_IPV6 then n.(ipv6Addr := o.ipv6Addr, ipv6Port := o.ipv6Port)
    else if o.lsType == LS_LEGACY_ID then n.(legacyId := o.legacyId)
    else if o.lsType == LS_ED25519_ID then n.(ed25519Id := o.ed25519Id)
    else n.(unrecognized := o.unrecognized)
  }

  function ParsedLinkSpecifier(b: Bytes): (r: Parsed<LinkSpecifier>)
    ensures r.Ok? ==> r.n <= |b|
  {
    if |b| < 2 || |b| - 2 < b[1] then Truncated
    else
      var len: nat := b[1];
      var n := NewLinkSpecifier().(lsType := b[0], lsLen := b[1]);
      if b[0] == LS_IPV4 then
        if len == 6 then Ok(8, n.(ipv4Addr := GetU32(b, 2), ipv4Port := GetU16(b, 6))) else Invalid
      else if b[0] == LS_IPV6 then
        if len == 18 then Ok(20, n.(ipv6Addr := b[2..18], ipv6Port := GetU16(b, 18))) else Invalid
      else if b[0] == LS_LEGACY_ID then
        if len == 20 then Ok(22, n.(legacyId := b[2..22])) else Invalid
      else if b[0] == LS_ED25519_ID then
        if len == 32 then Ok(34, n.(ed25519Id := b[2..34])) else Invalid
      else Ok(2 + len, n.(unrecognized := b[2..2 + len]))
  }

  lemma LinkSpecifierSettles(b: Bytes, c: Bytes)
    ensures Settles(ParsedLinkSpecifier(b), ParsedLinkSpecifier(b + c))
  {
    if 2 <= |b| && b[1] <= |b| - 2 {
      var len: nat := b[1];
      assert forall i, j {:trigger (b + c)[i..j]} :: 0 <= i <= j <= |b| ==> (b + c)[i..j] == b[i..j];
      assert len == 6 ==> GetU32(b + c, 2) == GetU32(b, 2) && GetU16(b + c, 6) == GetU16(b, 6);
      assert len == 18 ==> GetU16(b + c, 18) == GetU16(b, 18);
      hide GetU16, GetU32;
    }
  }

  lemma LinkSpecifierEncodes(b: Bytes)
    requires ParsedLinkSpecifier(b).Ok?
    ensures var o := ParsedLinkSpecifier(b).value;
            CheckLinkSpecifier(o) && Fits(o) && Encoding(o) == b[..ParsedLinkSpecifier(b).n] && Canonical(o) == o
  {
    hide U16, U32, GetU16, GetU32;
    var o := ParsedLinkSpecifier(b).value;
    var n := ParsedLinkSpecifier(b).n;
    assert b[0..2] == [b[0], b[1]];
    if b[0] == LS_IPV4 {
      ReadU32(b, 2, o.ipv4Addr);
      ReadU16(b, 6, o.ipv4Port);
      Cat(b, 2, 6, 8);
    } else if b[0] == LS_IPV6 {
      ReadU16(b, 18, o.ipv6Port);
      Cat(b, 2, 18, 20);
    }
    assert Body(o) == b[2..n];
    Cat(b, 0, 2, n);
  }

  lemma LinkSpecifierReturns(o: LinkSpecifier, rest: Bytes)
    requires CheckLinkSpecifier(o) && Fits(o)
    ensures ParsedLinkSpecifier(Encoding(o) + rest) == Ok(|Encoding(o)|, Canonical(o))
  {
    hide U16, U32, GetU16, GetU32;
    var b := Encoding(o) + rest;
    var n := |Encoding(o)|;
    assert b[2..n] == Body(o);
    if o.lsType == LS_IPV4 {
      assert b[2..6] == Body(o)[0..4] && b[6..8] == Body(o)[4..6];
      ReadU32(b, 2, o.ipv4Addr);
      ReadU16(b, 6, o.ipv4Port);
    } else if o.lsType == LS_IPV6 {
      assert b[2..18] == Body(o)[0..16] && b[18..20] == Body(o)[16..18];
      ReadU16(b, 18, o.ipv6Port);
    }
  }

  /** Writing the length back makes the encoding of what was put out. */
  lemma Patched(o: LinkSpecifier)
    ensures var put := [o.lsType] + [o.lsLen] + Body(o); put[..1] + [Len8(Body(o))] + put[1 + 1..] == Encoding(o)
  {
  }

  method EncodeLinkSpecifier(output: array<byte>, off: nat, avail: nat, o: LinkSpecifier) returns (result: int)
    requires off + avail <= output.Length
    modifies output
    ensures result == Outcome(CheckLinkSpecifier(o), |Encoding(o)|, avail, Fits(o))
    ensures Encoded(output[..], old(output[..]), off, avail, result, Encoding(o))
  {
    hide Writing, Encoded, Encoding, U16, U32, Len8, Body;
    ghost var was := output[..];
    StartWriting(was, off, avail);
    Refused(was, was, off, avail);
    if !CheckLinkSpecifier(o) {
      return -1;
    }
    var written := 0;
    var ok := Put(output, off, avail, written, [o.lsType], was, []);
    if !ok { Refused(output[..], was, off, avail); return -2; }
    written := written + 1;
    ok := Put(output, off, avail, written, [o.lsLen], was, [o.lsType]);
    if !ok { Refused(output[..], was, off, avail); return -2; }
    written := written + 1;
    ghost var done := [o.lsType] + [o.lsLen];
    var writtenBeforeUnion := written;
    ok, written := PutBody(output, off, avail, o, was, done);
    if !ok { Refused(output[..], was, off, avail); return -2; }
    if written - writtenBeforeUnion > 0xff {
      Refused(output[..], was, off, avail);
      return -1;
    }
    Len8Exact(Body(o));
    Patch(output, off, avail, 1, [written - writtenBeforeUnion], was, done + Body(o));
    Patched(o);
    DoneWriting(output[..], was, off, avail, Encoding(o));
    return written;
  }

  /** Puts out the body that the type selects. */
  method PutBody(output: array<byte>, off: nat, avail: nat, o: LinkSpecifier, ghost was: Bytes, ghost done: Bytes) returns (ok: bool, written: nat)
    requires Writing(output[..], was, off, avail, done) && |done| == 2
    modifies output
    ensures ok <==> 2 + |Body(o)| <= avail
    ensures Confined(output[..], was, off, avail) && (ok ==> written == 2 + |Body(o)| && Writing(output[..], was, off, avail, done + Body(o)))
  {
    hide Writing, Confined, U16, U32;
    written := 2;
    if o.lsType == LS_IPV4 {
      ok := PutTwo(output, off, avail, written, U32(o.ipv4Addr), U16(o.ipv4Port), was, done);
      written := written + 6;
    } else if o.lsType == LS_IPV6 {
      ok := PutTwo(output, off, avail, written, o.ipv6Addr, U16(o.ipv6Port), was, done);
      written := written + 18;
    } else if o.lsType == LS_LEGACY_ID {
      ok := Put(output, off, avail, written, o.legacyId, was, done);
      written := written + 20;
    } else if o.lsType == LS_ED25519_ID {
      ok := Put(output, off, avail, written, o.ed25519Id, was, done);
      written := written + 32;
    } else {
      ok := Put(output, off, avail, written, o.unrecognized, was, done);
      written := written + |o.unrecognized|;
    }
  }

  /** An address and a port, one after the other. */
  method PutTwo(output: array<byte>, off: nat, avail: nat, written: nat, addr: Bytes, port: Bytes, ghost was: Bytes, ghost done: Bytes) returns (ok: bool)
    requires Writing(output[..], was, off, avail, done) && written == |done|
    modifies output
    ensures ok <==> written + |addr + port| <= avail
    ensures Confined(output[..], was, off, avail) && (ok ==> Writing(output[..], was, off, avail, done + (addr + port)))
  {
    hide Writing, Confined;
    ok := Put(output, off, avail, written, addr, was, done);
    if !ok { return; }
    ok := Put(output, off, avail, written + |addr|, port, was, done + addr);
    assert done + addr + port == done + (addr + port);
  }

  method ParseLinkSpecifier(input: Bytes) returns (result: int, obj: LinkSpecifier)
    ensures result == ParsedLinkSpecifier(input).Code() && (result >= 0 ==> obj == ParsedLinkSpecifier(input).value)
  {
    hide GetU16, GetU32;
    var ptr, remaining := 0, |input|;
    obj := NewLinkSpecifier();
    if remaining < 1 { return -2, obj; }
    obj := obj.(lsType := input[ptr]);
    remaining, ptr := remaining - 1, ptr + 1;
    if remaining < 1 { return -2, obj; }
    obj := obj.(lsLen := input[ptr]);
    remaining, ptr := remaining - 1, ptr + 1;
    if remaining < obj.lsLen { return -2, obj; }
    var remainingAfter := remaining - obj.lsLen;
    remaining := obj.lsLen;
    if obj.lsType == LS_IPV4 {
      if remaining < 4 { return -1, obj; }
      obj := obj.(ipv4Addr := GetU32(input, ptr));
      remaining, ptr := remaining - 4, ptr + 4;
      if remaining < 2 { return -1, obj; }
      obj := obj.(ipv4Port := GetU16(input, ptr));
      remaining, ptr := remaining - 2, ptr + 2;
    } else if obj.lsType == LS_IPV6 {
      if remaining < 16 { return -1, obj; }
      obj := obj.(ipv6Addr := input[ptr..ptr + 16]);
      remaining, ptr := remaining - 16, ptr + 16;
      if remaining < 2 { return -1, obj; }
      obj := obj.(ipv6Port := GetU16(input, ptr));
      remaining, ptr := remaining - 2, ptr + 2;
    } else if obj.lsType == LS_LEGACY_ID {
      if remaining < 20 { return -1, obj; }
      obj := obj.(legacyId := input[ptr..ptr + 20]);
      remaining, ptr := remaining - 20, ptr + 20;
    } else if obj.lsType == LS_ED25519_ID {
      if remaining < 32 { return -1, obj; }
      obj := obj.(ed25519Id := input[ptr..ptr + 32]);
      remaining, ptr := remaining - 32, ptr + 32;
    } else {
      obj := obj.(unrecognized := input[ptr..ptr + remaining]);
      ptr, remaining := ptr + remaining, 0;
    }
    if remaining != 0 { return -1, obj; }
    remaining := remainingAfter;
    result := |input| - remaining;
  }

  // ----- create2_cell_body

  datatype Create2 = Create2(handshakeType: u16, handshakeLen: u16, handshakeData: Bytes, error: bool)

  function CheckCreate2(o: Create2): bool {
    !o.error && |o.handshakeData| == o.handshakeLen
  }

  function Create2Encoding(o: Create2): (b: Bytes)
    ensures |b| == 4 + |o.handshakeData|
  {
    U16(o.handshakeType) + U16(o.handshakeLen) + o.handshakeData
  }

  function ParsedCreate2(b: Bytes): (r: Parsed<Create2>)
    ensures r.Ok? ==> r.n <= |b|
  {
    if |b| < 4 || |b| - 4 < GetU16(b, 2) then Truncated
    else
      var len: nat := GetU16(b, 2);
      Ok(4 + len, Create2(GetU16(b, 0), len, b[4..4 + len], false))
  }

  lemma Create2Settles(b: Bytes, c: Bytes)
    ensures Settles(ParsedCreate2(b), ParsedCreate2(b + c))
  {
    if |b| >= 4 {
      assert GetU16(b + c, 0) == GetU16(b, 0) && GetU16(b + c, 2) == GetU16(b, 2);
      hide GetU16;
      var len: nat := GetU16(b, 2);
      if |b| - 4 >= len {
        assert (b + c)[4..4 + len] == b[4..4 + len];
      }
    }
  }

  lemma Create2Encodes(b: Bytes)
    requires ParsedCreate2(b).Ok?
    ensures var o := ParsedCreate2(b).value; CheckCreate2(o) && Create2Encoding(o) == b[..ParsedCreate2(b).n]
  {
    hide U16, GetU16;
    var o, n := ParsedCreate2(b).value, ParsedCreate2(b).n;
    ReadU16(b, 0, o.handshakeType);
    ReadU16(b, 2, o.handshakeLen);
    Cat(b, 0, 2, 4);
    Cat(b, 0, 4, n);
  }

  lemma Create2Returns(o: Create2, rest: Bytes)
    requires CheckCreate2(o)
    ensures ParsedCreate2(Create2Encoding(o) + rest) == Ok(|Create2Encoding(o)|, o)
  {
    hide U16, GetU16;
    var b := Create2Encoding(o) + rest;
    assert b[0..2] == U16(o.handshakeType) && b[2..4] == U16(o.handshakeLen);
    ReadU16(b, 0, o.handshakeType);
    ReadU16(b, 2, o.handshakeLen);
    assert b[4..4 + |o.handshakeData|] == o.handshakeData;
  }

  method EncodeCreate2(output: array<byte>, off: nat, avail: nat, o: Create2) returns (result: int)
    requires off + avail <= output.Length
    modifies output
    ensures result == Outcome(CheckCreate2(o), |Create2Encoding(o)|, avail, true)
    ensures Encoded(output[..], old(output[..]), off, avail, result, Create2Encoding(o))
  {
    hide Writing, Encoded, U16;
    ghost var was := output[..];
    StartWriting(was, off, avail);
    Refused(was, was, off, avail);
    if !CheckCreate2(o) {
      return -1;
    }
    var written := 0;
    ghost var done: Bytes := [];
    var ok := Put(output, off, avail, written, U16(o.handshakeType), was, done);
    if !ok { Refused(output[..], was, off, avail); return -2; }
    written, done := written + 2, U16(o.handshakeType);
    ok := Put(output, off, avail, written, U16(o.handshakeLen), was, done);
    if !ok { Refused(output[..], was, off, avail); return -2; }
    written, done := written + 2, done + U16(o.handshakeLen);
    ok := Put(output, off, avail, written, o.handshakeData, was, done);
    if !ok { Refused(output[..], was, off, avail); return -2; }
    written := written + |o.handshakeData|;
    DoneWriting(output[..], was, off, avail, Create2Encoding(o));
    return written;
  }

  method ParseCreate2(input: Bytes) returns (result: int, obj: Create2)
    ensures result == ParsedCreate2(input).Code() && (result >= 0 ==> obj == ParsedCreate2(input).value)
  {
    hide GetU16;
    var ptr, remaining := 0, |input|;
    obj := Create2(0, 0, [], false);
    if remaining < 2 { return -2, obj; }
    obj := obj.(handshakeType := GetU16(input, ptr));
    remaining, ptr := remaining - 2, ptr + 2;
    if remaining < 2 { return -2, obj; }
    obj := obj.(handshakeLen := GetU16(input, ptr));
    remaining, ptr := remaining - 2, ptr + 2;
    if remaining < obj.handshakeLen { return -2, obj; }
    obj := obj.(handshakeData := input[ptr..ptr + obj.handshakeLen]);
    ptr, remaining := ptr + obj.handshakeLen, remaining - obj.handshakeLen;
    result := |input| - remaining;
  }

  // ----- extend2_cell_body

  /** A pointer to a create2 body. */
  datatype Create2Ref = Null | At(body: Create2)

  datatype Extend2 = Extend2(nSpec: byte, ls: seq<LinkSpecifier>, create2: Create2Ref, error: bool)

  function CheckExtend2(o: Extend2): bool {
    !o.error && (forall e :: e in o.ls ==> CheckLinkSpecifier(e)) && |o.ls| == o.nSpec && o.create2.At? && CheckCreate2(o.create2.body)
  }

  predicate Extend2Fits(o: Extend2) {
    forall e :: e in o.ls ==> Fits(e)
  }

  function Extend2Encoding(o: Extend2): Bytes {
    [o.nSpec] + ListEncoding(Encoding, o.ls) + (if o.create2.At? then Create2Encoding(o.create2.body) else [])
  }

  function CanonicalExtend2(o: Extend2): Extend2 {
    o.(ls := Map(Canonical, o.ls))
  }

  function ParsedExtend2(b: Bytes): (r: Parsed<Extend2>)
    ensures r.Ok? ==> r.n <= |b|
  {
    if |b| < 1 then Truncated
    else
      match ParsedList(ParsedLinkSpecifier, b[1..], b[0])
      case Truncated => Truncated
      case Invalid => Invalid
      case Ok(n, ls) =>
        match ParsedCreate2(b[1 + n..])
        case Truncated => Truncated
        case Invalid => Invalid
        case Ok(m, c) => Ok(1 + n + m, Extend2(b[0], ls, At(c), false))
  }

  lemma LinkSpecifiersSettled()
    ensures Settled(ParsedLinkSpecifier)
  {
    hide ParsedLinkSpecifier;
    forall b, c
      ensures ParsedLinkSpecifier(b).Ok? ==> ParsedLinkSpecifier(b + c) == ParsedLinkSpecifier(b)
      ensures ParsedLinkSpecifier(b).Invalid? ==> ParsedLinkSpecifier(b + c).Invalid?
    {
      LinkSpecifierSettles(b, c);
    }
  }

  lemma Extend2Settles(b: Bytes, c: Bytes)
    ensures Settles(ParsedExtend2(b), ParsedExtend2(b + c))
  {
    hide ParsedLinkSpecifier, ParsedList, ParsedCreate2, Settled;
    if |b| >= 1 {
      LinkSpecifiersSettled();
      ListSettles(ParsedLinkSpecifier, b[1..], c, b[0]);
      assert (b + c)[1..] == b[1..] + c && (b + c)[0] == b[0];
      var r := ParsedList(ParsedLinkSpecifier, b[1..], b[0]);
      if r.Ok? {
        Create2Settles(b[1 + r.n..], c);
        assert (b + c)[1 + r.n..] == b[1 + r.n..] + c;
      }
    }
  }

  /** Every proper prefix of what was consumed is too short. */
  lemma Extend2Prefix(b: Bytes, k: nat)
    requires ParsedExtend2(b).Ok? && k < ParsedExtend2(b).n
    ensures ParsedExtend2(b[..k]) == Truncated
  {
    hide ParsedExtend2;
    Extend2Settles(b[..k], b[k..]);
    assert b[..k] + b[k..] == b;
  }

  predicate Good(e: LinkSpecifier) {
    CheckLinkSpecifier(e) && Fits(e)
  }

  lemma LinkSpecifiersEncode(b: Bytes, count: nat)
    requires ParsedList(ParsedLinkSpecifier, b, count).Ok?
    ensures var r := ParsedList(ParsedLinkSpecifier, b, count);
            ListEncoding(Encoding, r.value) == b[..r.n] && forall e :: e in r.value ==> Good(e)
  {
    hide ParsedLinkSpecifier, Encoding, ParsedList, ListEncoding;
    forall a | ParsedLinkSpecifier(a).Ok?
      ensures var x := ParsedLinkSpecifier(a); x.n <= |a| && Encoding(x.value) == a[..x.n] && Good(x.value)
    {
      LinkSpecifierEncodes(a);
    }
    ListEncodes(ParsedLinkSpecifier, Encoding, Good, b, count);
  }

  lemma Extend2Encodes(b: Bytes)
    requires ParsedExtend2(b).Ok?
    ensures var o := ParsedExtend2(b).value;
            CheckExtend2(o) && Extend2Fits(o) && Extend2Encoding(o) == b[..ParsedExtend2(b).n]
  {
    hide ParsedLinkSpecifier, Encoding, ParsedList, ListEncoding, ParsedCreate2, Create2Encoding, CheckCreate2;
    var r := ParsedList(ParsedLinkSpecifier, b[1..], b[0]);
    LinkSpecifiersEncode(b[1..], b[0]);
    Create2Encodes(b[1 + r.n..]);
    var n := ParsedExtend2(b).n;
    assert b[0..1] == [b[0]] && b[1..][..r.n] == b[1..1 + r.n] && b[1 + r.n..][..n - 1 - r.n] == b[1 + r.n..n];
    Cat(b, 0, 1, 1 + r.n);
    Cat(b, 0, 1 + r.n, n);
  }

  lemma Extend2Returns(o: Extend2, rest: Bytes)
    requires CheckExtend2(o) && Extend2Fits(o)
    ensures ParsedExtend2(Extend2Encoding(o) + rest) == Ok(|Extend2Encoding(o)|, CanonicalExtend2(o))
  {
    hide ParsedLinkSpecifier, Encoding, Canonical, ParsedList, ListEncoding, ParsedCreate2, Create2Encoding, CheckCreate2;
    var b := Extend2Encoding(o) + rest;
    var ls := ListEncoding(Encoding, o.ls);
    var tail := Create2Encoding(o.create2.body) + rest;
    assert b[0] == o.nSpec && b[1..] == ls + tail && b[1 + |ls|..] == tail;
    forall i, c {:trigger Encoding(o.ls[i]) + c} | 0 <= i < |o.ls|
      ensures ParsedLinkSpecifier(Encoding(o.ls[i]) + c) == Ok(|Encoding(o.ls[i])|, Canonical(o.ls[i]))
    {
      LinkSpecifierReturns(o.ls[i], c);
    }
    ListReturns(ParsedLinkSpecifier, Encoding, Canonical, o.ls, tail);
    Create2Returns(o.create2.body, rest);
  }

  function LinkResult(e: LinkSpecifier, avail: nat): int {
    Outcome(CheckLinkSpecifier(e), |Encoding(e)|, avail, Fits(e))
  }

  /** The result of `extend2_cell_body_encode`, when bodies may be too long for their fields. */
  function Extend2Result(o: Extend2, avail: nat): int {
    if !CheckExtend2(o) then -1
    else if avail < 1 then -2
    else WithCreate2(o, ListResult(LinkResult, o.ls, avail - 1), avail)
  }

  function WithCreate2(o: Extend2, r: int, avail: nat): int
    requires CheckExtend2(o)
  {
    if r < 0 then r
    else if avail - 1 - r < |Create2Encoding(o.create2.body)| then -2
    else 1 + r + |Create2Encoding(o.create2.body)|
  }

  /** When they are not, it only depends on the space. */
  lemma Extend2ResultFits(o: Extend2, avail: nat)
    requires CheckExtend2(o) && Extend2Fits(o)
    ensures Extend2Result(o, avail) == if avail < |Extend2Encoding(o)| then -2 else |Extend2Encoding(o)|
  {
    hide Encoding, ListEncoding, ListResult, Create2Encoding;
    if avail >= 1 {
      ListFits(LinkResult, Encoding, o.ls, avail - 1);
    }
  }

  /** `extend2_cell_body_encoded_len` */
  method Extend2EncodedLen(o: Extend2) returns (result: int)
    ensures result == if CheckExtend2(o) then |Extend2Encoding(o)| else -1
  {
    hide Encoding, ListEncoding, Create2Encoding;
    if !CheckExtend2(o) {
      return -1;
    }
    result := 1;
    var idx := 0;
    NoElements(Encoding);
    assert o.ls[..0] == [];
    while idx < |o.ls|
      invariant 0 <= idx <= |o.ls| && result == 1 + |ListEncoding(Encoding, o.ls[..idx])|
    {
      ListAppend(Encoding, o.ls[..idx], o.ls[idx]);
      assert o.ls[..idx + 1] == o.ls[..idx] + [o.ls[idx]];
      result := result + 2 + |Body(o.ls[idx])|;
      idx := idx + 1;
    }
    assert o.ls[..idx] == o.ls;
    result := result + 4 + |o.create2.body.handshakeData|;
  }

  method EncodeExtend2(output: array<byte>, off: nat, avail: nat, o: Extend2) returns (result: int)
    requires off + avail <= output.Length
    modifies output
    ensures result == Extend2Result(o, avail)
    ensures Encoded(output[..], old(output[..]), off, avail, result, Extend2Encoding(o))
  {
    hide Writing, Encoded, Encoding, ListEncoding, ListResult, LinkResult, Create2Encoding, CheckCreate2;
    ghost var was := output[..];
    StartWriting(was, off, avail);
    Refused(was, was, off, avail);
    if !CheckExtend2(o) {
      return -1;
    }
    var ok := Put(output, off, avail, 0, [o.nSpec], was, []);
    if !ok { Refused(output[..], was, off, avail); return -2; }
    assert [] + [o.nSpec] == [o.nSpec];
    var written;
    result, written := PutLinkSpecifiers(output, off, avail, o, was);
    if result < 0 { Refused(output[..], was, off, avail); return; }
    ghost var done, mid := [o.nSpec] + ListEncoding(Encoding, o.ls), output[..];
    WritingConfined(mid, was, off, avail, done);
    result := EncodeCreate2(output, off + written, avail - written, o.create2.body);
    NestedWriting(output[..], mid, was, off, avail, done, result, Create2Encoding(o.create2.body));
    if result < 0 { Refused(output[..], was, off, avail); return; }
    DoneWriting(output[..], was, off, avail, done + Create2Encoding(o.create2.body));
    result := written + result;
  }

  /** A turn of the loop over the link specifiers. */
  method PutLinkSpecifier(output: array<byte>, off: nat, avail: nat, o: Extend2, ghost was: Bytes, idx: nat, written: nat) returns (result: int)
    requires idx < |o.ls| && written == 1 + |ListEncoding(Encoding, o.ls[..idx])|
    requires Writing(output[..], was, off, avail, [o.nSpec] + ListEncoding(Encoding, o.ls[..idx]))
    modifies output
    ensures result >= 0 ==> written + result <= avail
    ensures ListResult(LinkResult, o.ls[idx..], avail - written) == if result < 0 then result else Plus(result, ListResult(LinkResult, o.ls[idx + 1..], avail - (written + result)))
    ensures Confined(output[..], was, off, avail)
    ensures result >= 0 ==> Writing(output[..], was, off, avail, [o.nSpec] + ListEncoding(Encoding, o.ls[..idx + 1])) && written + result == 1 + |ListEncoding(Encoding, o.ls[..idx + 1])|
  {
    hide Writing, Confined, Encoding, ListEncoding, ListResult;
    ghost var mid, done := output[..], [o.nSpec] + ListEncoding(Encoding, o.ls[..idx]);
    WritingConfined(mid, was, off, avail, done);
    result := EncodeLinkSpecifier(output, off + written, avail - written, o.ls[idx]);
    NestedWriting(output[..], mid, was, off, avail, done, result, Encoding(o.ls[idx]));
    assert o.ls[idx..][1..] == o.ls[idx + 1..];
    FirstResult(LinkResult, o.ls[idx..], avail - written);
    ListAppend(Encoding, o.ls[..idx], o.ls[idx]);
    assert o.ls[..idx + 1] == o.ls[..idx] + [o.ls[idx]];
    assert done + Encoding(o.ls[idx]) == [o.nSpec] + (ListEncoding(Encoding, o.ls[..idx]) + Encoding(o.ls[idx]));
  }

  /** The loop over the link specifiers. */
  method PutLinkSpecifiers(output: array<byte>, off: nat, avail: nat, o: Extend2, ghost was: Bytes) returns (result: int, written: nat)
    requires Writing(output[..], was, off, avail, [o.nSpec]) && 1 <= avail && CheckExtend2(o)
    modifies output
    ensures if ListResult(LinkResult, o.ls, avail - 1) < 0 then result == ListResult(LinkResult, o.ls, avail - 1)
            else result >= 0 && written == 1 + ListResult(LinkResult, o.ls, avail - 1)
    ensures Confined(output[..], was, off, avail)
    ensures result >= 0 ==> Writing(output[..], was, off, avail, [o.nSpec] + ListEncoding(Encoding, o.ls)) && written == 1 + |ListEncoding(Encoding, o.ls)|
  {
    hide Writing, Confined, Encoding, ListEncoding, ListResult, LinkResult, CheckExtend2;
    written, result := 1, 0;
    var idx := 0;
    NoElements(Encoding);
    assert [o.nSpec] + [] == [o.nSpec] && o.ls[..0] == [] && o.ls[0..] == o.ls;
    WritingConfined(output[..], was, off, avail, [o.nSpec]);
    while idx < |o.ls|
      invariant 0 <= idx <= |o.ls| && 1 <= written <= avail && written == 1 + |ListEncoding(Encoding, o.ls[..idx])|
      invariant Writing(output[..], was, off, avail, [o.nSpec] + ListEncoding(Encoding, o.ls[..idx])) && Confined(output[..], was, off, avail)
      invariant result >= 0
      invariant ListResult(LinkResult, o.ls, avail - 1) == Plus(written - 1, ListResult(LinkResult, o.ls[idx..], avail - written))
    {
      result := PutLinkSpecifier(output, off, avail, o, was, idx, written);
      if result < 0 { return; }
      PlusPlus(written - 1, result, ListResult(LinkResult, o.ls[idx + 1..], avail - (written + result)));
      written := written + result;
      idx := idx + 1;
    }
    NoResult(LinkResult, avail - written);
    assert o.ls[idx..] == [] && o.ls[..idx] == o.ls;
  }

  method ParseExtend2(input: Bytes) returns (result: int, obj: Extend2)
    ensures result == ParsedExtend2(input).Code() && (result >= 0 ==> obj == ParsedExtend2(input).value)
  {
    hide ParsedLinkSpecifier, ParsedList, ParsedCreate2;
    var ptr, remaining := 0, |input|;
    obj := Extend2(0, [], Null, false);
    if remaining < 1 { return -2, obj; }
    obj := obj.(nSpec := input[ptr]);
    remaining, ptr := remaining - 1, ptr + 1;
    var n, ls;
    result, n, ls := ParseLinkSpecifiers(input[ptr..], obj.nSpec);
    if result < 0 { return result, obj; }
    obj := obj.(ls := ls);
    remaining, ptr := remaining - n, ptr + n;
    var c;
    result, c := ParseCreate2(input[ptr..]);
    if result < 0 { return result, obj; }
    obj := obj.(create2 := At(c));
    remaining, ptr := remaining - result, ptr + result;
    result := |input| - remaining;
  }

  /** The loop over the link specifiers; n bytes hold them. */
  method ParseLinkSpecifiers(input: Bytes, count: nat) returns (result: int, n: nat, ls: seq<LinkSpecifier>)
    ensures var r := ParsedList(ParsedLinkSpecifier, input, count);
            if r.Ok? then result >= 0 && n == r.n && ls == r.value else result == r.Code()
  {
    hide ParsedLinkSpecifier, After, ParsedList;
    n, ls, result := 0, [], 0;
    var idx := 0;
    AfterNothing(ParsedList(ParsedLinkSpecifier, input, count));
    assert input[0..] == input;
    while idx < count
      invariant 0 <= idx <= count && n <= |input| && result >= 0
      invariant ParsedList(ParsedLinkSpecifier, input, count) == After(n, ls, ParsedList(ParsedLinkSpecifier, input[n..], count - idx))
    {
      var e;
      result, e := ParseLinkSpecifier(input[n..]);
      ListStep(ParsedLinkSpecifier, input, n, ls, count - idx);
      if result < 0 { return; }
      n, ls := n + result, ls + [e];
      idx := idx + 1;
    }
    AfterOk(n, ls, ParsedLinkSpecifier, input[n..]);
  }
}
