/** The codecs for SOCKS requests of src/trunnel/socks5.c: SOCKS4 with its 4a extension, and
    the request of section 4 of RFC 1928. */
module SocksCodec {
  import opened Wire

  const CMD_CONNECT: byte := 1
  const CMD_BIND: byte := 2
  const CMD_UDP_ASSOCIATE: byte := 3
  const CMD_RESOLVE: byte := 240
  const CMD_RESOLVE_PTR: byte := 241
  const ATYPE_IPV4: byte := 1
  const ATYPE_DOMAINNAME: byte := 3
  const ATYPE_IPV6: byte := 4

  // ----- domainname

  datatype DomainName = DomainName(len: byte, name: Bytes, error: bool)

  function CheckDomainName(o: DomainName): bool {
    !o.error && |o.name| == o.len
  }

  function DomainNameEncoding(o: DomainName): (b: Bytes)
    ensures |b| == 1 + |o.name|
  {
    [o.len] + o.name
  }

  function ParsedDomainName(b: Bytes): (r: Parsed<DomainName>)
    ensures r.Ok? ==> r.n <= |b|
  {
    if |b| < 1 || |b| - 1 < b[0] then Truncated
    else
      var len: nat := b[0];
      Ok(1 + len, DomainName(b[0], b[1..1 + len], false))
  }

  lemma DomainNameSettles(b: Bytes, c: Bytes)
    ensures Settles(ParsedDomainName(b), ParsedDomainName(b + c))
  {
    if 1 <= |b| && b[0] <= |b| - 1 {
      var len: nat := b[0];
      assert (b + c)[1..1 + len] == b[1..1 + len];
    }
  }

  lemma DomainNameEncodes(b: Bytes)
    requires ParsedDomainName(b).Ok?
    ensures var o := ParsedDomainName(b).value; CheckDomainName(o) && DomainNameEncoding(o) == b[..ParsedDomainName(b).n]
  {
    One(b, 0);
    Cat(b, 0, 1, ParsedDomainName(b).n);
  }

  lemma DomainNameReturns(o: DomainName, rest: Bytes)
    requires CheckDomainName(o)
    ensures ParsedDomainName(DomainNameEncoding(o) + rest) == Ok(|DomainNameEncoding(o)|, o)
  {
    var b := DomainNameEncoding(o) + rest;
    assert b[1..1 + |o.name|] == o.name;
  }

  /** The space that the encoder needs, or -1 for a failed check. */
  method DomainNameEncodedLen(o: DomainName) returns (result: int)
    ensures result == if CheckDomainName(o) then |DomainNameEncoding(o)| else -1
  {
    if !CheckDomainName(o) {
      return -1;
    }
    result := 1;
    result := result + |o.name|;
  }

  method EncodeDomainName(output: array<byte>, off: nat, avail: nat, o: DomainName) returns (result: int)
    requires off + avail <= output.Length
    modifies output
    ensures result == Outcome(CheckDomainName(o), |DomainNameEncoding(o)|, avail, true)
    ensures Encoded(output[..], old(output[..]), off, avail, result, DomainNameEncoding(o))
  {
    hide Writing, Encoded;
    ghost var was := output[..];
    StartWriting(was, off, avail);
    Refused(was, was, off, avail);
    if !CheckDomainName(o) {
      return -1;
    }
    var written := 0;
    var ok := Put(output, off, avail, written, [o.len], was, []);
    if !ok { Refused(output[..], was, off, avail); return -2; }
    written := written + 1;
    ok := Put(output, off, avail, written, o.name, was, [o.len]);
    if !ok { Refused(output[..], was, off, avail); return -2; }
    written := written + |o.name|;
    DoneWriting(output[..], was, off, avail, DomainNameEncoding(o));
    return written;
  }

  method ParseDomainName(input: Bytes) returns (result: int, obj: DomainName)
    ensures result == ParsedDomainName(input).Code() && (result >= 0 ==> obj == ParsedDomainName(input).value)
  {
    var ptr, remaining := 0, |input|;
    obj := DomainName(0, [], false);
    if remaining < 1 { return -2, obj; }
    obj := obj.(len := input[ptr]);
    remaining, ptr := remaining - 1, ptr + 1;
    if remaining < obj.len { return -2, obj; }
    obj := obj.(name := input[ptr..ptr + obj.len]);
    ptr, remaining := ptr + obj.len, remaining - obj.len;
    result := |input| - remaining;
  }

  // ----- strings that end at a NUL byte

  /** The bytes of a C string in front of its NUL byte. */
  type CString = s: Bytes | 0 !in s

  datatype CStr = Null | Str(s: CString)

  /** `memchr(b + i, 0, |b| - i)`: the first NUL byte from i on, or |b| if there is none. */
  function NulAt(b: Bytes, i: nat): (j: nat)
    requires i <= |b|
    ensures i <= j <= |b| && (j < |b| ==> b[j] == 0) && 0 !in b[i..j]
    decreases |b| - i
  {
    if i == |b| || b[i] == 0 then i
    else
      var j := NulAt(b, i + 1);
      assert b[i..j] == [b[i]] + b[i + 1..j];
      j
  }

  /** There is only one place for the end of a string. */
  lemma NulUnique(b: Bytes, i: nat, j: nat)
    requires i <= j < |b| && b[j] == 0 && 0 !in b[i..j]
    ensures NulAt(b, i) == j
  {
    var k := NulAt(b, i);
    assert forall x {:trigger b[x]} :: i <= x < j ==> b[x] == b[i..j][x - i];
    assert forall x {:trigger b[x]} :: i <= x < k ==> b[x] == b[i..k][x - i];
  }

  lemma NulStays(b: Bytes, c: Bytes, i: nat)
    requires i <= |b| && NulAt(b, i) < |b|
    ensures NulAt(b + c, i) == NulAt(b, i)
  {
    var j := NulAt(b, i);
    assert (b + c)[i..j] == b[i..j];
    NulUnique(b + c, i, j);
  }

  // ----- socks4_client_request

  datatype Socks4 = Socks4(version: byte, command: byte, port: u16, addr: u32, username: CStr, hostname: CStr, error: bool)

  function NewSocks4(): Socks4 {
    Socks4(4, CMD_BIND, 0, 0, Null, Null, false)
  }

  /** 0.0.0.x with x not 0 says that a host name follows. */
  predicate NeedsHost(addr: u32) {
    1 <= addr <= 255
  }

  predicate IsCommand4(c: byte) {
    c == CMD_BIND || c == CMD_CONNECT || c == CMD_RESOLVE || c == CMD_RESOLVE_PTR
  }

  function CheckSocks4(o: Socks4): bool {
    !o.error && o.version == 4 && IsCommand4(o.command) && o.username.Str? && (NeedsHost(o.addr) ==> o.hostname.Str?)
  }

  function Terminated(s: CStr): Bytes {
    if s.Str? then s.s + [0] else []
  }

  function Socks4Head(o: Socks4): (b: Bytes)
    ensures |b| == 8
  {
    [o.version, o.command] + U16(o.port) + U32(o.addr)
  }

  function Socks4Encoding(o: Socks4): Bytes {
    Socks4Head(o) + Terminated(o.username) + (if NeedsHost(o.addr) then Terminated(o.hostname) else [])
  }

  function CanonicalSocks4(o: Socks4): Socks4 {
    if NeedsHost(o.addr) then o else o.(hostname := Null)
  }

  function ParsedSocks4(b: Bytes): (r: Parsed<Socks4>)
    ensures r.Ok? ==> r.n <= |b|
  {
    if |b| < 1 then Truncated
    else if b[0] != 4 then Invalid
    else if |b| < 2 then Truncated
    else if !IsCommand4(b[1]) then Invalid
    else if |b| < 8 then Truncated
    else
      var u := NulAt(b, 8);
      if u == |b| then Truncated
      else
        var o := Socks4(4, b[1], GetU16(b, 2), GetU32(b, 4), Str(b[8..u]), Null, false);
        if !NeedsHost(o.addr) then Ok(u + 1, o)
        else
          var h := NulAt(b, u + 1);
          if h == |b| then Truncated else Ok(h + 1, o.(hostname := Str(b[u + 1..h])))
  }

  lemma Socks4Settles(b: Bytes, c: Bytes)
    ensures Settles(ParsedSocks4(b), ParsedSocks4(b + c))
  {
    if 8 <= |b| {
      assert GetU16(b + c, 2) == GetU16(b, 2) && GetU32(b + c, 4) == GetU32(b, 4);
      hide GetU16, GetU32, IsCommand4, NulAt;
      var u := NulAt(b, 8);
      if u < |b| {
        NulStays(b, c, 8);
        assert (b + c)[8..u] == b[8..u];
        var h := NulAt(b, u + 1);
        if h < |b| {
          NulStays(b, c, u + 1);
          assert (b + c)[u + 1..h] == b[u + 1..h];
        }
      }
    }
  }

  /** Every proper prefix of what was consumed is too short. */
  lemma Socks4Prefix(b: Bytes, k: nat)
    requires ParsedSocks4(b).Ok? && k < ParsedSocks4(b).n
    ensures ParsedSocks4(b[..k]) == Truncated
  {
    hide ParsedSocks4;
    Socks4Settles(b[..k], b[k..]);
    assert b[..k] + b[k..] == b;
  }

  lemma Socks4HeadSlice(b: Bytes, o: Socks4)
    requires 8 <= |b|
    ensures Socks4Head(o) == b[0..8] <==> o.version == b[0] && o.command == b[1] && o.port == GetU16(b, 2) && o.addr == GetU32(b, 4)
  {
    hide U16, U32, GetU16, GetU32;
    ReadU16(b, 2, o.port);
    ReadU32(b, 4, o.addr);
    var h := Socks4Head(o);
    assert b[0..2] == [b[0], b[1]];
    Cat(b, 0, 2, 4);
    Cat(b, 0, 4, 8);
    assert h[0] == o.version && h[1] == o.command && h[2..4] == U16(o.port) && h[4..8] == U32(o.addr);
    if h == b[0..8] {
      assert b[0..8][2..4] == b[2..4] && b[0..8][4..8] == b[4..8] && h[0] == b[0] && h[1] == b[1];
    }
  }

  lemma Socks4Encodes(b: Bytes)
    requires ParsedSocks4(b).Ok?
    ensures var o := ParsedSocks4(b).value;
            CheckSocks4(o) && Socks4Encoding(o) == b[..ParsedSocks4(b).n] && CanonicalSocks4(o) == o
  {
    hide U16, U32, GetU16, GetU32, Socks4Head, NulAt, IsCommand4, NeedsHost;
    var o := ParsedSocks4(b).value;
    Socks4HeadSlice(b, o);
    var u := NulAt(b, 8);
    One(b, u);
    Cat(b, 8, u, u + 1);
    Cat(b, 0, 8, u + 1);
    if NeedsHost(o.addr) {
      var h := NulAt(b, u + 1);
      One(b, h);
      Cat(b, u + 1, h, h + 1);
      Cat(b, 0, u + 1, h + 1);
    }
  }

  lemma Socks4Returns(o: Socks4, rest: Bytes)
    requires CheckSocks4(o)
    ensures ParsedSocks4(Socks4Encoding(o) + rest) == Ok(|Socks4Encoding(o)|, CanonicalSocks4(o))
  {
    hide U16, U32, GetU16, GetU32, Socks4Head, NulAt;
    var b := Socks4Encoding(o) + rest;
    assert b[0..8] == Socks4Head(o);
    Socks4HeadSlice(b, o);
    var u := 8 + |o.username.s|;
    assert b[8..u] == o.username.s && b[u] == 0;
    NulUnique(b, 8, u);
    if NeedsHost(o.addr) {
      var h := u + 1 + |o.hostname.s|;
      assert b[u + 1..h] == o.hostname.s && b[h] == 0;
      NulUnique(b, u + 1, h);
    }
  }

  /** The space that the encoder needs, or -1 for a failed check. */
  method Socks4EncodedLen(o: Socks4) returns (result: int)
    ensures result == if CheckSocks4(o) then |Socks4Encoding(o)| else -1
  {
    hide U16, U32, IsCommand4;
    if !CheckSocks4(o) {
      return -1;
    }
    result := 1;
    result := result + 1;
    result := result + 2;
    result := result + 4;
    result := result + |o.username.s| + 1;
    if NeedsHost(o.addr) {
      result := result + |o.hostname.s| + 1;
    }
  }

  method EncodeSocks4(output: array<byte>, off: nat, avail: nat, o: Socks4) returns (result: int)
    requires off + avail <= output.Length
    modifies output
    ensures result == Outcome(CheckSocks4(o), |Socks4Encoding(o)|, avail, true)
    ensures Encoded(output[..], old(output[..]), off, avail, result, Socks4Encoding(o))
  {
    hide Writing, Encoded, U16, U32, IsCommand4;
    ghost var was := output[..];
    StartWriting(was, off, avail);
    Refused(was, was, off, avail);
    if !CheckSocks4(o) {
      return -1;
    }
    var written := 0;
    ghost var done: Bytes := [];
    var ok := Put(output, off, avail, written, [o.version], was, done);
    if !ok { Refused(output[..], was, off, avail); return -2; }
    written, done := written + 1, [o.version];
    ok := Put(output, off, avail, written, [o.command], was, done);
    if !ok { Refused(output[..], was, off, avail); return -2; }
    written, done := written + 1, done + [o.command];
    ok := Put(output, off, avail, written, U16(o.port), was, done);
    if !ok { Refused(output[..], was, off, avail); return -2; }
    written, done := written + 2, done + U16(o.port);
    ok := Put(output, off, avail, written, U32(o.addr), was, done);
    if !ok { Refused(output[..], was, off, avail); return -2; }
    written, done := written + 4, done + U32(o.addr);
    ok := Put(output, off, avail, written, o.username.s + [0], was, done);
    if !ok { Refused(output[..], was, off, avail); return -2; }
    written, done := written + |o.username.s| + 1, done + Terminated(o.username);
    if NeedsHost(o.addr) {
      ok := Put(output, off, avail, written, o.hostname.s + [0], was, done);
      if !ok { Refused(output[..], was, off, avail); return -2; }
      written, done := written + |o.hostname.s| + 1, done + Terminated(o.hostname);
    }
    assert done == Socks4Encoding(o);
    DoneWriting(output[..], was, off, avail, done);
    return written;
  }

  method ParseSocks4(input: Bytes) returns (result: int, obj: Socks4)
    ensures result == ParsedSocks4(input).Code() && (result >= 0 ==> obj == ParsedSocks4(input).value)
  {
    hide GetU16, GetU32, IsCommand4, NulAt;
    var ptr, remaining := 0, |input|;
    obj := NewSocks4();
    if remaining < 1 { return -2, obj; }
    obj := obj.(version := input[ptr]);
    remaining, ptr := remaining - 1, ptr + 1;
    if obj.version != 4 { return -1, obj; }
    if remaining < 1 { return -2, obj; }
    obj := obj.(command := input[ptr]);
    remaining, ptr := remaining - 1, ptr + 1;
    if !IsCommand4(obj.command) { return -1, obj; }
    if remaining < 2 { return -2, obj; }
    obj := obj.(port := GetU16(input, ptr));
    remaining, ptr := remaining - 2, ptr + 2;
    if remaining < 4 { return -2, obj; }
    obj := obj.(addr := GetU32(input, ptr));
    remaining, ptr := remaining - 4, ptr + 4;
    var eos := NulAt(input, ptr);
    if eos == |input| { return -2, obj; }
    var memlen := eos - ptr + 1;
    obj := obj.(username := Str(input[ptr..eos]));
    remaining, ptr := remaining - memlen, ptr + memlen;
    if NeedsHost(obj.addr) {
      eos := NulAt(input, ptr);
      if eos == |input| { return -2, obj; }
      memlen := eos - ptr + 1;
      obj := obj.(hostname := Str(input[ptr..eos]));
      remaining, ptr := remaining - memlen, ptr + memlen;
    }
    result := |input| - remaining;
  }

  // ----- socks5_client_request

  /** A pointer to a domain name. */
  datatype DomainRef = NoDomain | At(name: DomainName)

  datatype Socks5 = Socks5(version: byte, command: byte, reserved: byte, atype: byte, ipv4: u32, ipv6: Block16, domain: DomainRef, port: u16, error: bool)

  function NewSocks5(): Socks5 {
    Socks5(5, CMD_BIND, 0, 0, 0, Zeros(16), NoDomain, 0, false)
  }

  predicate IsCommand5(c: byte) {
    IsCommand4(c) || c == CMD_UDP_ASSOCIATE
  }

  function CheckSocks5(o: Socks5): bool {
    !o.error && o.version == 5 && IsCommand5(o.command) && o.reserved == 0 &&
    (o.atype == ATYPE_IPV4 || o.atype == ATYPE_IPV6 || (o.atype == ATYPE_DOMAINNAME && o.domain.At? && CheckDomainName(o.domain.name)))
  }

  /** The address that the type selects. */
  function Address(o: Socks5): Bytes {
    if o.atype == ATYPE_IPV4 then U32(o.ipv4)
    else if o.atype == ATYPE_IPV6 then o.ipv6
    else if o.domain.At? then DomainNameEncoding(o.domain.name)
    else []
  }

  function Socks5Encoding(o: Socks5): Bytes {
    [o.version, o.command, o.reserved, o.atype] + Address(o) + U16(o.port)
  }

  function CanonicalSocks5(o: Socks5): Socks5 {
    var n := NewSocks5().(command := o.command, atype := o.atype, port := o.port);
    if o.atype == ATYPE_IPV4 then n.(ipv4 := o.ipv4)
    else if o.atype == ATYPE_IPV6 then n.(ipv6 := o.ipv6)
    else n.(domain := o.domain)
  }

  /** What follows the address, which ends at byte i. */
  function WithPort(b: Bytes, i: nat, o: Socks5): (r: Parsed<Socks5>)
    requires i <= |b|
    ensures r.Ok? ==> r.n <= |b|
  {
    if |b| - i < 2 then Truncated else Ok(i + 2, o.(port := GetU16(b, i)))
  }

  function ParsedSocks5(b: Bytes): (r: Parsed<Socks5>)
    ensures r.Ok? ==> r.n <= |b|
  {
    if |b| < 1 then Truncated
    else if b[0] != 5 then Invalid
    else if |b| < 2 then Truncated
    else if !IsCommand5(b[1]) then Invalid
    else if |b| < 3 then Truncated
    else if b[2] != 0 then Invalid
    else if |b| < 4 then Truncated
    else
      var o := NewSocks5().(command := b[1], atype := b[3]);
      if b[3] == ATYPE_IPV4 then
        if |b| < 8 then Truncated else WithPort(b, 8, o.(ipv4 := GetU32(b, 4)))
      else if b[3] == ATYPE_IPV6 then
        if |b| < 20 then Truncated else WithPort(b, 20, o.(ipv6 := b[4..20]))
      else if b[3] == ATYPE_DOMAINNAME then
        match ParsedDomainName(b[4..])
        case Truncated => Truncated
        case Invalid => Invalid
        case Ok(n, d) => WithPort(b, 4 + n, o.(domain := At(d)))
      else Invalid
  }

  lemma WithPortSettles(b: Bytes, c: Bytes, i: nat, o: Socks5)
    requires i <= |b|
    ensures Settles(WithPort(b, i, o), WithPort(b + c, i, o))
  {
    if i + 2 <= |b| {
      assert GetU16(b + c, i) == GetU16(b, i);
    }
  }

  lemma Socks5Settles(b: Bytes, c: Bytes)
    ensures Settles(ParsedSocks5(b), ParsedSocks5(b + c))
  {
    hide WithPort, IsCommand5, ParsedDomainName;
    if 4 <= |b| {
      var o := NewSocks5().(command := b[1], atype := b[3]);
      DomainNameSettles(b[4..], c);
      assert (b + c)[4..] == b[4..] + c;
      if b[3] == ATYPE_IPV4 && 8 <= |b| {
        assert GetU32(b + c, 4) == GetU32(b, 4);
        WithPortSettles(b, c, 8, o.(ipv4 := GetU32(b, 4)));
      } else if b[3] == ATYPE_IPV6 && 20 <= |b| {
        assert (b + c)[4..20] == b[4..20];
        WithPortSettles(b, c, 20, o.(ipv6 := b[4..20]));
      } else if b[3] == ATYPE_DOMAINNAME && ParsedDomainName(b[4..]).Ok? {
        var d := ParsedDomainName(b[4..]);
        WithPortSettles(b, c, 4 + d.n, o.(domain := At(d.value)));
      }
    }
  }

  /** Every proper prefix of what was consumed is too short. */
  lemma Socks5Prefix(b: Bytes, k: nat)
    requires ParsedSocks5(b).Ok? && k < ParsedSocks5(b).n
    ensures ParsedSocks5(b[..k]) == Truncated
  {
    hide ParsedSocks5;
    Socks5Settles(b[..k], b[k..]);
    assert b[..k] + b[k..] == b;
  }

  lemma Socks5Encodes(b: Bytes)
    requires ParsedSocks5(b).Ok?
    ensures var o := ParsedSocks5(b).value;
            CheckSocks5(o) && Socks5Encoding(o) == b[..ParsedSocks5(b).n] && CanonicalSocks5(o) == o
  {
    hide U16, U32, GetU16, GetU32, ParsedDomainName, DomainNameEncoding, CheckDomainName, IsCommand5;
    var o, n := ParsedSocks5(b).value, ParsedSocks5(b).n;
    if b[3] == ATYPE_IPV4 {
      ReadU32(b, 4, o.ipv4);
    } else if b[3] == ATYPE_DOMAINNAME {
      DomainNameEncodes(b[4..]);
      assert b[4..][..n - 6] == b[4..n - 2];
    }
    assert Address(o) == b[4..n - 2];
    ReadU16(b, n - 2, o.port);
    assert b[0..4] == [b[0], b[1], b[2], b[3]];
    Cat(b, 0, 4, n - 2);
    Cat(b, 0, n - 2, n);
  }

  lemma Socks5Returns(o: Socks5, rest: Bytes)
    requires CheckSocks5(o)
    ensures ParsedSocks5(Socks5Encoding(o) + rest) == Ok(|Socks5Encoding(o)|, CanonicalSocks5(o))
  {
    hide U16, U32, GetU16, GetU32, ParsedDomainName, DomainNameEncoding, CheckDomainName, IsCommand5;
    var b, n := Socks5Encoding(o) + rest, |Socks5Encoding(o)|;
    assert b[4..n - 2] == Address(o) && b[n - 2..n] == U16(o.port);
    ReadU16(b, n - 2, o.port);
    if o.atype == ATYPE_IPV4 {
      ReadU32(b, 4, o.ipv4);
    } else if o.atype == ATYPE_DOMAINNAME {
      assert b[4..] == DomainNameEncoding(o.domain.name) + (U16(o.port) + rest);
      DomainNameReturns(o.domain.name, U16(o.port) + rest);
    }
  }

  /** The space that the encoder needs, or -1 for a failed check. */
  method Socks5EncodedLen(o: Socks5) returns (result: int)
    ensures result == if CheckSocks5(o) then |Socks5Encoding(o)| else -1
  {
    hide U16, U32, IsCommand5, CheckDomainName;
    if !CheckSocks5(o) {
      return -1;
    }
    result := 4;
    if o.atype == ATYPE_IPV4 {
      result := result + 4;
    } else if o.atype == ATYPE_IPV6 {
      result := result + 16;
    } else {
      var len := DomainNameEncodedLen(o.domain.name);
      result := result + len;
    }
    result := result + 2;
  }

  method EncodeSocks5(output: array<byte>, off: nat, avail: nat, o: Socks5) returns (result: int)
    requires off + avail <= output.Length
    modifies output
    ensures result == Outcome(CheckSocks5(o), |Socks5Encoding(o)|, avail, true)
    ensures Encoded(output[..], old(output[..]), off, avail, result, Socks5Encoding(o))
  {
    hide Writing, Encoded, U16, Address, IsCommand5, CheckDomainName;
    ghost var was := output[..];
    StartWriting(was, off, avail);
    Refused(was, was, off, avail);
    if !CheckSocks5(o) {
      return -1;
    }
    var written := 0;
    ghost var done: Bytes := [];
    var ok := Put(output, off, avail, written, [o.version], was, done);
    if !ok { Refused(output[..], was, off, avail); return -2; }
    written, done := written + 1, done + [o.version];
    ok := Put(output, off, avail, written, [o.command], was, done);
    if !ok { Refused(output[..], was, off, avail); return -2; }
    written, done := written + 1, done + [o.command];
    ok := Put(output, off, avail, written, [o.reserved], was, done);
    if !ok { Refused(output[..], was, off, avail); return -2; }
    written, done := written + 1, done + [o.reserved];
    ok := Put(output, off, avail, written, [o.atype], was, done);
    if !ok { Refused(output[..], was, off, avail); return -2; }
    written, done := written + 1, done + [o.atype];
    assert done == [o.version, o.command, o.reserved, o.atype];
    ok, written := PutAddress(output, off, avail, o, was, done);
    if !ok { Refused(output[..], was, off, avail); return -2; }
    done := done + Address(o);
    ok := Put(output, off, avail, written, U16(o.port), was, done);
    if !ok { Refused(output[..], was, off, avail); return -2; }
    DoneWriting(output[..], was, off, avail, done + U16(o.port));
    return written + 2;
  }

  /** Puts out the address that the type selects. */
  method PutAddress(output: array<byte>, off: nat, avail: nat, o: Socks5, ghost was: Bytes, ghost done: Bytes) returns (ok: bool, written: nat)
    requires Writing(output[..], was, off, avail, done) && |done| == 4 && CheckSocks5(o)
    modifies output
    ensures ok <==> 4 + |Address(o)| <= avail
    ensures Confined(output[..], was, off, avail) && (ok ==> written == 4 + |Address(o)| && Writing(output[..], was, off, avail, done + Address(o)))
  {
    hide Writing, Confined, U32, IsCommand5, CheckDomainName;
    written := 4;
    if o.atype == ATYPE_IPV4 {
      ok := Put(output, off, avail, written, U32(o.ipv4), was, done);
      if !ok { return; }
      written := written + 4;
    } else if o.atype == ATYPE_IPV6 {
      ok := Put(output, off, avail, written, o.ipv6, was, done);
      if !ok { return; }
      written := written + 16;
    } else {
      ghost var mid := output[..];
      WritingConfined(mid, was, off, avail, done);
      var result := EncodeDomainName(output, off + written, avail - written, o.domain.name);
      NestedWriting(output[..], mid, was, off, avail, done, result, DomainNameEncoding(o.domain.name));
      ok := result >= 0;
      if !ok { return; }
      written := written + result;
    }
  }

  method ParseSocks5(input: Bytes) returns (result: int, obj: Socks5)
    ensures result == ParsedSocks5(input).Code() && (result >= 0 ==> obj == ParsedSocks5(input).value)
  {
    hide GetU16, GetU32, IsCommand5, ParsedDomainName;
    var ptr, remaining := 0, |input|;
    obj := NewSocks5();
    if remaining < 1 { return -2, obj; }
    obj := obj.(version := input[ptr]);
    remaining, ptr := remaining - 1, ptr + 1;
    if obj.version != 5 { return -1, obj; }
    if remaining < 1 { return -2, obj; }
    obj := obj.(command := input[ptr]);
    remaining, ptr := remaining - 1, ptr + 1;
    if !IsCommand5(obj.command) { return -1, obj; }
    if remaining < 1 { return -2, obj; }
    obj := obj.(reserved := input[ptr]);
    remaining, ptr := remaining - 1, ptr + 1;
    if obj.reserved != 0 { return -1, obj; }
    if remaining < 1 { return -2, obj; }
    obj := obj.(atype := input[ptr]);
    remaining, ptr := remaining - 1, ptr + 1;
    if obj.atype == ATYPE_IPV4 {
      if remaining < 4 { return -2, obj; }
      obj := obj.(ipv4 := GetU32(input, ptr));
      remaining, ptr := remaining - 4, ptr + 4;
    } else if obj.atype == ATYPE_IPV6 {
      if remaining < 16 { return -2, obj; }
      obj := obj.(ipv6 := input[ptr..ptr + 16]);
      remaining, ptr := remaining - 16, ptr + 16;
    } else if obj.atype == ATYPE_DOMAINNAME {
      var d;
      result, d := ParseDomainName(input[ptr..]);
      if result < 0 { return result, obj; }
      obj := obj.(domain := At(d));
      remaining, ptr := remaining - result, ptr + result;
    } else {
      return -1, obj;
    }
    if remaining < 2 { return -2, obj; }
    obj := obj.(port := GetU16(input, ptr));
    remaining, ptr := remaining - 2, ptr + 2;
    result := |input| - remaining;
  }
}
