/** The codec for certificates of src/trunnel/ed25519_cert.c, the format of section 2.1 of
    Tor's cert-spec. */
module CertCodec {
  import opened Wire

  const CERTEXT_SIGNED_WITH_KEY: byte := 4

  // ----- ed25519_cert_extension

  /** `struct ed25519_cert_extension_st`.  Only one field of the union is in use. */
  datatype Extension = Extension(extLength: u16, extType: byte, extFlags: byte, signingKey: Block32, unparsed: Bytes, error: bool)

  function NewExtension(): Extension {
    Extension(0, 0, 0, Zeros(32), [], false)
  }

  function CheckExtension(o: Extension): bool {
    !o.error
  }

  /** The field of the union that the type selects. */
  function Body(o: Extension): Bytes {
    if o.extType == CERTEXT_SIGNED_WITH_KEY then o.signingKey else o.unparsed
  }

  function ExtensionLen(o: Extension): nat {
    4 + |Body(o)|
  }

  /** The body fits the length field. */
  predicate Fits(o: Extension) {
    |Body(o)| < 0x1_0000
  }

  /** The bytes of an extension: the length is that of the body, whatever `extLength` says. */
  function Encoding(o: Extension): (b: Bytes)
    ensures |b| == ExtensionLen(o)
  {
    U16(Len16(Body(o))) + [o.extType, o.extFlags] + Body(o)
  }

  /** What comes back from the wire: the true length, and zeros in what is not in use. */
  function Canonical(o: Extension): Extension {
    var signed := o.extType == CERTEXT_SIGNED_WITH_KEY;
    Extension(Len16(Body(o)), o.extType, o.extFlags, if signed then o.signingKey else Zeros(32), if signed then [] else o.unparsed, false)
  }

  function ParsedExtension(b: Bytes): Parsed<Extension> {
    if |b| < 4 then Truncated
    else
      var n := GetU16(b, 0);
      if |b| - 4 < n then Truncated
      else if b[2] == CERTEXT_SIGNED_WITH_KEY then
        if n == 32 then Ok(36, Extension(32, b[2], b[3], b[4..36], [], false)) else Invalid
      else Ok(4 + n, Extension(n, b[2], b[3], Zeros(32), b[4..4 + n], false))
  }

  lemma ExtensionSettles(b: Bytes, c: Bytes)
    ensures Settles(ParsedExtension(b), ParsedExtension(b + c))
    ensures ParsedExtension(b).Ok? ==> ParsedExtension(b).n <= |b|
  {
    if |b| >= 4 {
      var n := GetU16(b, 0);
      assert GetU16(b + c, 0) == n;
      if |b| - 4 >= n {
        assert (b + c)[4..4 + n] == b[4..4 + n];
      }
    }
  }

  lemma ExtensionEncodes(b: Bytes)
    requires ParsedExtension(b).Ok?
    ensures var o := ParsedExtension(b).value;
            CheckExtension(o) && Fits(o) && Encoding(o) == b[..ParsedExtension(b).n] && Canonical(o) == o
  {
    hide U16, GetU16;
    var n: nat := GetU16(b, 0);
    var o := ParsedExtension(b).value;
    assert Body(o) == b[4..4 + n];
    Len16Exact(Body(o));
    ReadU16(b, 0, n);
    assert b[2..4] == [b[2], b[3]];
    Cat(b, 0, 2, 4);
    Cat(b, 0, 4, 4 + n);
  }

  lemma ExtensionReturns(o: Extension, rest: Bytes)
    requires CheckExtension(o) && Fits(o)
    ensures ParsedExtension(Encoding(o) + rest) == Ok(|Encoding(o)|, Canonical(o))
  {
    hide U16, GetU16;
    var b := Encoding(o) + rest;
    assert b[0..2] == U16(|Body(o)|);
    ReadU16(b, 0, |Body(o)|);
    assert b[4..4 + |Body(o)|] == Body(o);
  }

  /** Writing the length back makes the encoding of what was put out. */
  lemma Patched(o: Extension)
    requires Fits(o)
    ensures var put := U16(o.extLength) + [o.extType] + [o.extFlags] + Body(o); put[..0] + U16(Len16(Body(o))) + put[0 + 2..] == Encoding(o)
  {
  }

  method EncodeExtension(output: array<byte>, off: nat, avail: nat, o: Extension) returns (result: int)
    requires off + avail <= output.Length
    modifies output
    ensures result == Outcome(CheckExtension(o), ExtensionLen(o), avail, Fits(o))
    ensures Encoded(output[..], old(output[..]), off, avail, result, Encoding(o))
  {
    hide Writing, Encoded, Encoding, U16, Len16, Confined;
    ghost var was, done: Bytes := output[..], [];
    StartWriting(was, off, avail);
    Refused(was, was, off, avail);
    if !CheckExtension(o) {
      return -1;
    }
    var written := 0;
    var ok := Put(output, off, avail, written, U16(o.extLength), was, done);
    if !ok { Refused(output[..], was, off, avail); return -2; }
    written, done := written + 2, U16(o.extLength);
    ok := Put(output, off, avail, written, [o.extType], was, done);
    if !ok { Refused(output[..], was, off, avail); return -2; }
    written, done := written + 1, done + [o.extType];
    ok := Put(output, off, avail, written, [o.extFlags], was, done);
    if !ok { Refused(output[..], was, off, avail); return -2; }
    written, done := written + 1, done + [o.extFlags];
    var writtenBeforeUnion := written;
    if o.extType == CERTEXT_SIGNED_WITH_KEY {
      ok := Put(output, off, avail, written, o.signingKey, was, done);
      if !ok { Refused(output[..], was, off, avail); return -2; }
      written := written + 32;
    } else {
      ok := Put(output, off, avail, written, o.unparsed, was, done);
      if !ok { Refused(output[..], was, off, avail); return -2; }
      written := written + |o.unparsed|;
    }
    done := done + Body(o);
    if written - writtenBeforeUnion > 0xffff {
      Refused(output[..], was, off, avail);
      return -1;
    }
    assert Len16(Body(o)) == written - writtenBeforeUnion by { Len16Exact(Body(o)); }
    Patch(output, off, avail, 0, U16(written - writtenBeforeUnion), was, done);
    Patched(o);
    DoneWriting(output[..], was, off, avail, Encoding(o));
    return written;
  }

  method ParseExtension(input: Bytes) returns (result: int, obj: Extension)
    ensures result == ParsedExtension(input).Code() && (result >= 0 ==> obj == ParsedExtension(input).value)
  {
    var ptr, remaining := 0, |input|;
    obj := NewExtension();
    if remaining < 2 { return -2, obj; }
    obj := obj.(extLength := GetU16(input, ptr));
    remaining, ptr := remaining - 2, ptr + 2;
    if remaining < 1 { return -2, obj; }
    obj := obj.(extType := input[ptr]);
    remaining, ptr := remaining - 1, ptr + 1;
    if remaining < 1 { return -2, obj; }
    obj := obj.(extFlags := input[ptr]);
    remaining, ptr := remaining - 1, ptr + 1;
    if remaining < obj.extLength { return -2, obj; }
    var remainingAfter := remaining - obj.extLength;
    remaining := obj.extLength;
    if obj.extType == CERTEXT_SIGNED_WITH_KEY {
      if remaining < 32 { return -1, obj; }
      obj := obj.(signingKey := input[ptr..ptr + 32]);
      remaining, ptr := remaining - 32, ptr + 32;
    } else {
      obj := obj.(unparsed := input[ptr..ptr + remaining]);
      ptr, remaining := ptr + remaining, 0;
    }
    if remaining != 0 { return -1, obj; }
    remaining := remainingAfter;
    result := |input| - remaining;
  }

  // ----- ed25519_cert

  datatype Cert = Cert(version: byte, certType: byte, expField: u32, certKeyType: byte, certifiedKey: Block32,
                       nExtensions: byte, ext: seq<Extension>, signature: Block64, error: bool)

  function NewCert(): Cert {
    Cert(1, 0, 0, 0, Zeros(32), 0, [], Zeros(64), false)
  }

  function CheckCert(o: Cert): bool {
    !o.error && o.version == 1 && (forall e :: e in o.ext ==> CheckExtension(e)) && |o.ext| == o.nExtensions
  }

  predicate CertFits(o: Cert) {
    forall e :: e in o.ext ==> Fits(e)
  }

  function CertHead(o: Cert): (b: Bytes)
    ensures |b| == 40
  {
    [o.version, o.certType] + U32(o.expField) + [o.certKeyType] + o.certifiedKey + [o.nExtensions]
  }

  function CertEncoding(o: Cert): Bytes {
    CertHead(o) + ListEncoding(Encoding, o.ext) + o.signature
  }

  function CanonicalCert(o: Cert): Cert {
    o.(ext := Map(Canonical, o.ext))
  }

  function ParsedCert(b: Bytes): (r: Parsed<Cert>)
    ensures r.Ok? ==> r.n <= |b|
  {
    if |b| < 1 then Truncated
    else if b[0] != 1 then Invalid
    else if |b| < 40 then Truncated
    else
      match ParsedList(ParsedExtension, b[40..], b[39])
      case Truncated => Truncated
      case Invalid => Invalid
      case Ok(n, es) =>
        if |b| - 40 - n < 64 then Truncated
        else Ok(104 + n, Cert(1, b[1], GetU32(b, 2), b[6], b[7..39], b[39], es, b[40 + n..104 + n], false))
  }

  lemma Extended(b: Bytes, c: Bytes, i: nat)
    requires i <= |b|
    ensures (b + c)[i..] == b[i..] + c && forall k {:trigger (b + c)[k]} :: 0 <= k < |b| ==> (b + c)[k] == b[k]
  {
  }

  lemma ExtensionsSettled()
    ensures Settled(ParsedExtension)
  {
    forall b, c
      ensures ParsedExtension(b).Ok? ==> ParsedExtension(b).n <= |b| && ParsedExtension(b + c) == ParsedExtension(b)
      ensures ParsedExtension(b).Invalid? ==> ParsedExtension(b + c).Invalid?
    {
      ExtensionSettles(b, c);
    }
  }

  lemma CertSettles(b: Bytes, c: Bytes)
    ensures Settles(ParsedCert(b), ParsedCert(b + c))
  {
    hide ParsedExtension, Settled, ParsedList;
    if |b| >= 40 {
      ExtensionsSettled();
      ListSettles(ParsedExtension, b[40..], c, b[39]);
      var r := ParsedList(ParsedExtension, b[40..], b[39]);
      Extended(b, c, 40);
      assert GetU32(b + c, 2) == GetU32(b, 2);
      hide GetU32;
      assert (b + c)[7..39] == b[7..39];
      if r.Ok? && |b| - 40 - r.n >= 64 {
        assert (b + c)[40 + r.n..104 + r.n] == b[40 + r.n..104 + r.n];
      }
    }
  }

  /** Every proper prefix of what was consumed is too short. */
  lemma CertPrefix(b: Bytes, k: nat)
    requires ParsedCert(b).Ok? && k < ParsedCert(b).n
    ensures ParsedCert(b[..k]) == Truncated
  {
    CertSettles(b[..k], b[k..]);
    assert b[..k] + b[k..] == b;
  }

  lemma CertEncodes(b: Bytes)
    requires ParsedCert(b).Ok?
    ensures var o := ParsedCert(b).value;
            CheckCert(o) && CertFits(o) && CertEncoding(o) == b[..ParsedCert(b).n]
  {
    hide ParsedExtension, Encoding, GetU32, CertHead, ParsedList, ListEncoding, Good;
    var o := ParsedCert(b).value;
    var r := ParsedList(ParsedExtension, b[40..], b[39]);
    ExtensionsEncode(b[40..], b[39]);
    assert CheckCert(o) && CertFits(o) by { AllGood(o.ext); }
    HeadSlice(b, o);
    assert b[40..][..r.n] == b[40..40 + r.n];
    Cat(b, 0, 40, 40 + r.n);
    Cat(b, 0, 40 + r.n, 104 + r.n);
  }

  lemma AllGood(es: seq<Extension>)
    requires forall i :: 0 <= i < |es| ==> Good(es[i])
    ensures forall e :: e in es ==> CheckExtension(e) && Fits(e)
  {
  }

  lemma ExtensionsEncode(b: Bytes, count: nat)
    requires ParsedList(ParsedExtension, b, count).Ok?
    ensures var r := ParsedList(ParsedExtension, b, count);
            ListEncoding(Encoding, r.value) == b[..r.n] && forall i :: 0 <= i < count ==> Good(r.value[i])
  {
    hide ParsedExtension, Encoding, ParsedList, ListEncoding;
    forall a | ParsedExtension(a).Ok?
      ensures var x := ParsedExtension(a); x.n <= |a| && Encoding(x.value) == a[..x.n] && Good(x.value)
    {
      ExtensionSettles(a, []);
      ExtensionEncodes(a);
    }
    ListEncodes(ParsedExtension, Encoding, Good, b, count);
  }

  lemma HeadSlice(b: Bytes, o: Cert)
    requires 40 <= |b| && o.version == b[0] && o.certType == b[1] && o.expField == GetU32(b, 2) && o.certKeyType == b[6]
    requires o.certifiedKey == b[7..39] && o.nExtensions == b[39]
    ensures CertHead(o) == b[0..40]
  {
    hide U32, GetU32;
    ReadU32(b, 2, o.expField);
    assert b[0..2] == [b[0], b[1]];
    One(b, 6);
    One(b, 39);
    Cat(b, 0, 2, 6);
    Cat(b, 0, 6, 7);
    Cat(b, 0, 7, 39);
    Cat(b, 0, 39, 40);
  }

  predicate Good(e: Extension) {
    CheckExtension(e) && Fits(e)
  }

  lemma CertReturns(o: Cert, rest: Bytes)
    requires CheckCert(o) && CertFits(o)
    ensures ParsedCert(CertEncoding(o) + rest) == Ok(|CertEncoding(o)|, CanonicalCert(o))
  {
    hide ParsedExtension, Encoding, Canonical, GetU32, CertHead, ParsedList, ListEncoding;
    var b := CertEncoding(o) + rest;
    var es := ListEncoding(Encoding, o.ext);
    var tail := o.signature + rest;
    assert b[..40] == CertHead(o) && b[40..] == es + tail;
    HeadFields(b, o);
    forall i, c {:trigger Encoding(o.ext[i]) + c} | 0 <= i < |o.ext|
      ensures ParsedExtension(Encoding(o.ext[i]) + c) == Ok(|Encoding(o.ext[i])|, Canonical(o.ext[i]))
    {
      ExtensionReturns(o.ext[i], c);
    }
    ListReturns(ParsedExtension, Encoding, Canonical, o.ext, tail);
    assert b[40 + |es|..104 + |es|] == o.signature;
  }

  lemma HeadFields(b: Bytes, o: Cert)
    requires 40 <= |b| && b[..40] == CertHead(o)
    ensures b[0] == o.version && b[1] == o.certType && GetU32(b, 2) == o.expField && b[6] == o.certKeyType
    ensures b[7..39] == o.certifiedKey && b[39] == o.nExtensions
  {
    hide U32, GetU32;
    var h := CertHead(o);
    assert forall i {:trigger h[i]} :: 0 <= i < 40 ==> h[i] == b[i];
    assert h[2..6] == U32(o.expField) && b[2..6] == h[2..6];
    ReadU32(b, 2, o.expField);
    assert h[7..39] == o.certifiedKey && b[7..39] == h[7..39];
  }

  function ExtensionResult(e: Extension, avail: nat): int {
    Outcome(CheckExtension(e), ExtensionLen(e), avail, Fits(e))
  }

  /** The result of `ed25519_cert_encode`, when bodies may be too long for their fields. */
  function CertResult(o: Cert, avail: nat): int {
    if !CheckCert(o) then -1
    else if avail < 40 then -2
    else Signed(40, ListResult(ExtensionResult, o.ext, avail - 40), avail)
  }

  function Signed(head: nat, r: int, avail: nat): int {
    if r < 0 then r else if avail - head - r < 64 then -2 else head + r + 64
  }

  /** When they are not, it only depends on the space. */
  lemma CertResultFits(o: Cert, avail: nat)
    requires CheckCert(o) && CertFits(o)
    ensures CertResult(o, avail) == if avail < |CertEncoding(o)| then -2 else |CertEncoding(o)|
  {
    hide Encoding, ListEncoding, ListResult, CertHead;
    if avail >= 40 {
      ListFits(ExtensionResult, Encoding, o.ext, avail - 40);
    }
  }

  /** `ed25519_cert_encoded_len` */
  method CertEncodedLen(o: Cert) returns (result: int)
    ensures result == if CheckCert(o) then |CertEncoding(o)| else -1
  {
    hide Encoding, CertHead, ListEncoding;
    if !CheckCert(o) {
      return -1;
    }
    result := 40;
    var idx := 0;
    assert ListEncoding(Encoding, []) == [] by { NoElements(Encoding); }
    while idx < |o.ext|
      invariant 0 <= idx <= |o.ext| && result == 40 + |ListEncoding(Encoding, o.ext[..idx])|
    {
      ListAppend(Encoding, o.ext[..idx], o.ext[idx]);
      assert o.ext[..idx + 1] == o.ext[..idx] + [o.ext[idx]];
      result := result + ExtensionLen(o.ext[idx]);
      idx := idx + 1;
    }
    assert o.ext[..idx] == o.ext;
    result := result + 64;
  }

  method EncodeCert(output: array<byte>, off: nat, avail: nat, o: Cert) returns (result: int)
    requires off + avail <= output.Length
    modifies output
    ensures result == CertResult(o, avail)
    ensures Encoded(output[..], old(output[..]), off, avail, result, CertEncoding(o))
  {
    hide Writing, Encoded, Encoding, U32, ListEncoding, ListResult, CertHead, ExtensionResult;
    ghost var was := output[..];
    StartWriting(was, off, avail);
    Refused(was, was, off, avail);
    if !CheckCert(o) {
      return -1;
    }
    var ok := PutCertHead(output, off, avail, o, was);
    if !ok { Refused(output[..], was, off, avail); return -2; }
    var written;
    result, written := PutExtensions(output, off, avail, o, was);
    if result < 0 { Refused(output[..], was, off, avail); return; }
    ghost var done := CertHead(o) + ListEncoding(Encoding, o.ext);
    ok := Put(output, off, avail, written, o.signature, was, done);
    if !ok { Refused(output[..], was, off, avail); return -2; }
    DoneWriting(output[..], was, off, avail, done + o.signature);
    result := written + 64;
  }

  /** The fields of `ed25519_cert_encode` up to the extensions. */
  method PutCertHead(output: array<byte>, off: nat, avail: nat, o: Cert, ghost was: Bytes) returns (ok: bool)
    requires Writing(output[..], was, off, avail, [])
    modifies output
    ensures ok <==> 40 <= avail
    ensures Confined(output[..], was, off, avail) && (ok ==> Writing(output[..], was, off, avail, CertHead(o)))
  {
    hide Writing, Confined, U32;
    ghost var done: Bytes := [];
    ok := Put(output, off, avail, 0, [o.version], was, done);
    if !ok { return; }
    done := [o.version];
    ok := Put(output, off, avail, 1, [o.certType], was, done);
    if !ok { return; }
    done := done + [o.certType];
    ok := Put(output, off, avail, 2, U32(o.expField), was, done);
    if !ok { return; }
    done := done + U32(o.expField);
    ok := Put(output, off, avail, 6, [o.certKeyType], was, done);
    if !ok { return; }
    done := done + [o.certKeyType];
    ok := Put(output, off, avail, 7, o.certifiedKey, was, done);
    if !ok { return; }
    done := done + o.certifiedKey;
    ok := Put(output, off, avail, 39, [o.nExtensions], was, done);
    assert done + [o.nExtensions] == CertHead(o);
  }

  /** A turn of the loop over the extensions. */
  method PutExtension(output: array<byte>, off: nat, avail: nat, o: Cert, ghost was: Bytes, idx: nat, written: nat) returns (result: int)
    requires idx < |o.ext| && written == 40 + |ListEncoding(Encoding, o.ext[..idx])|
    requires Writing(output[..], was, off, avail, CertHead(o) + ListEncoding(Encoding, o.ext[..idx]))
    modifies output
    ensures result >= 0 ==> written + result <= avail
    ensures ListResult(ExtensionResult, o.ext[idx..], avail - written) == if result < 0 then result else Plus(result, ListResult(ExtensionResult, o.ext[idx + 1..], avail - (written + result)))
    ensures Confined(output[..], was, off, avail)
    ensures result >= 0 ==> Writing(output[..], was, off, avail, CertHead(o) + ListEncoding(Encoding, o.ext[..idx + 1])) && written + result == 40 + |ListEncoding(Encoding, o.ext[..idx + 1])|
  {
    hide Writing, Confined, Encoding, CertHead, ListEncoding, ListResult;
    ghost var mid, done := output[..], CertHead(o) + ListEncoding(Encoding, o.ext[..idx]);
    WritingConfined(mid, was, off, avail, done);
    result := EncodeExtension(output, off + written, avail - written, o.ext[idx]);
    NestedWriting(output[..], mid, was, off, avail, done, result, Encoding(o.ext[idx]));
    assert o.ext[idx..][1..] == o.ext[idx + 1..];
    FirstResult(ExtensionResult, o.ext[idx..], avail - written);
    ListAppend(Encoding, o.ext[..idx], o.ext[idx]);
    assert o.ext[..idx + 1] == o.ext[..idx] + [o.ext[idx]];
    assert done + Encoding(o.ext[idx]) == CertHead(o) + (ListEncoding(Encoding, o.ext[..idx]) + Encoding(o.ext[idx]));
  }

  /** The loop over the extensions. */
  method PutExtensions(output: array<byte>, off: nat, avail: nat, o: Cert, ghost was: Bytes) returns (result: int, written: nat)
    requires Writing(output[..], was, off, avail, CertHead(o)) && 40 <= avail && off + avail <= output.Length && CheckCert(o)
    modifies output
    ensures if ListResult(ExtensionResult, o.ext, avail - 40) < 0 then result == ListResult(ExtensionResult, o.ext, avail - 40)
            else result >= 0 && written == 40 + ListResult(ExtensionResult, o.ext, avail - 40)
    ensures Confined(output[..], was, off, avail)
    ensures result >= 0 ==> Writing(output[..], was, off, avail, CertHead(o) + ListEncoding(Encoding, o.ext)) && written == 40 + |ListEncoding(Encoding, o.ext)|
  {
    hide Writing, Confined, Encoding, CertHead, ListEncoding, ListResult, ExtensionResult, CheckCert;
    written, result := 40, 0;
    var idx := 0;
    NoElements(Encoding);
    assert CertHead(o) + [] == CertHead(o) && o.ext[..0] == [] && o.ext[0..] == o.ext;
    WritingConfined(output[..], was, off, avail, CertHead(o));
    while idx < |o.ext|
      invariant 0 <= idx <= |o.ext| && 40 <= written <= avail && written == 40 + |ListEncoding(Encoding, o.ext[..idx])|
      invariant Writing(output[..], was, off, avail, CertHead(o) + ListEncoding(Encoding, o.ext[..idx])) && Confined(output[..], was, off, avail)
      invariant result >= 0
      invariant ListResult(ExtensionResult, o.ext, avail - 40) == Plus(written - 40, ListResult(ExtensionResult, o.ext[idx..], avail - written))
    {
      result := PutExtension(output, off, avail, o, was, idx, written);
      if result < 0 { return; }
      PlusPlus(written - 40, result, ListResult(ExtensionResult, o.ext[idx + 1..], avail - (written + result)));
      written := written + result;
      idx := idx + 1;
    }
    NoResult(ExtensionResult, avail - written);
    assert o.ext[idx..] == [] && o.ext[..idx] == o.ext;
  }

  method ParseCert(input: Bytes) returns (result: int, obj: Cert)
    ensures result == ParsedCert(input).Code() && (result >= 0 ==> obj == ParsedCert(input).value)
  {
    hide ParsedExtension, ParsedList, GetU32;
    var ptr, remaining := 0, |input|;
    obj := NewCert();
    if remaining < 1 { return -2, obj; }
    obj := obj.(version := input[ptr]);
    remaining, ptr := remaining - 1, ptr + 1;
    if obj.version != 1 { return -1, obj; }
    if remaining < 1 { return -2, obj; }
    obj := obj.(certType := input[ptr]);
    remaining, ptr := remaining - 1, ptr + 1;
    if remaining < 4 { return -2, obj; }
    obj := obj.(expField := GetU32(input, ptr));
    remaining, ptr := remaining - 4, ptr + 4;
    if remaining < 1 { return -2, obj; }
    obj := obj.(certKeyType := input[ptr]);
    remaining, ptr := remaining - 1, ptr + 1;
    if remaining < 32 { return -2, obj; }
    obj := obj.(certifiedKey := input[ptr..ptr + 32]);
    remaining, ptr := remaining - 32, ptr + 32;
    if remaining < 1 { return -2, obj; }
    obj := obj.(nExtensions := input[ptr]);
    remaining, ptr := remaining - 1, ptr + 1;
    var es, n;
    result, n, es := ParseExtensions(input[ptr..], obj.nExtensions);
    if result < 0 { return result, obj; }
    obj := obj.(ext := es);
    remaining, ptr := remaining - n, ptr + n;
    if remaining < 64 { return -2, obj; }
    obj := obj.(signature := input[ptr..ptr + 64]);
    remaining, ptr := remaining - 64, ptr + 64;
    result := |input| - remaining;
  }

  /** The loop over the extensions; n bytes hold them. */
  method ParseExtensions(input: Bytes, count: nat) returns (result: int, n: nat, es: seq<Extension>)
    ensures var r := ParsedList(ParsedExtension, input, count);
            if r.Ok? then result >= 0 && n == r.n && es == r.value else result == r.Code()
  {
    hide ParsedExtension, After, ParsedList;
    n, es, result := 0, [], 0;
    var idx := 0;
    AfterNothing(ParsedList(ParsedExtension, input, count));
    assert input[0..] == input;
    while idx < count
      invariant 0 <= idx <= count && n <= |input| && result >= 0
      invariant ParsedList(ParsedExtension, input, count) == After(n, es, ParsedList(ParsedExtension, input[n..], count - idx))
    {
      var e;
      result, e := ParseExtension(input[n..]);
      ListStep(ParsedExtension, input, n, es, count - idx);
      if result < 0 { return; }
      ExtensionSettles(input[n..], []);
      n, es := n + result, es + [e];
      idx := idx + 1;
    }
    AfterOk(n, es, ParsedExtension, input[n..]);
  }
}
