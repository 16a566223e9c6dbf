/**
 * discovery.parse_route: decoding the classless static routes of DHCP option 249,
 * each entry being a prefix length, the significant octets of the destination and
 * a four-byte router (the layout of RFC 3442, section 3). Python exceptions that
 * the function can raise are the `Err` outcomes.
 */
module DhcpRoutes {
  import opened Bits
  import opened ByteUtil
  import opened Wrappers

  /** One decoded route: the tuple (net, mask, gateway). */
  datatype Route = Route(network: nat, mask: nat, gateway: nat)

  datatype ParseError =
    | IndexOutOfRange(index: nat)    // IndexError: response[index] does not exist
    | NegativeShiftCount(count: int) // ValueError: `<<` by a negative count

  /**
   * The route entry at j and the position after it. The mask is the top p bits of
   * a 32-bit word for the prefix length p; the network is the significant octets
   * moved to the top of the word with every bit below the prefix cleared.
   */
  function RouteEntryAt(response: seq<byte>, j: nat): Result<(Route, nat), ParseError>
  {
    if j >= |response| then Err(IndexOutOfRange(j))
    else
      var bits := response[j];
      if bits > 32 then Err(NegativeShiftCount(32 - bits as int))
      else
        var maskLenBytes := (bits as nat + 7) / 8;
        if j + 1 + maskLenBytes > |response| then Err(IndexOutOfRange(|response|))
        else
          var shifted := Shl(BigEndianAt(response, j + 1, maskLenBytes), LowBits(8 * maskLenBytes));
          var g := j + 1 + maskLenBytes;
          if g + 4 > |response| then Err(IndexOutOfRange(|response|))
          else
            var network := Shl(Shr(shifted, LowBits(bits)), LowBits(bits));
            Ok((Route(network, MaskBits(32, LowBits(bits)), BigEndianAt(response, g, 4)), g + 4))
  }

  /**
   * When an entry decodes and which error it raises otherwise: the IndexError of
   * the prefix-length byte, the ValueError of a prefix over 32, or the IndexError
   * of an entry cut short by the end of the response.
   */
  lemma RouteEntryAtCases(response: seq<byte>, j: nat)
    ensures var r := RouteEntryAt(response, j);
      && (r.Ok? <==> j < |response| && response[j] <= 32 && j + 5 + (response[j] + 7) / 8 <= |response|)
      && (r.Ok? ==> r.value.1 == j + 5 + (response[j] + 7) / 8)
      && (r.Err? ==>
            r.error == (if j >= |response| then IndexOutOfRange(j)
                        else if response[j] > 32 then NegativeShiftCount(32 - response[j] as int)
                        else IndexOutOfRange(|response|)))
  {
  }

  /** `prefix + rs` inside a result; an error stays the same error. */
  function PrependRoutes(prefix: seq<Route>, r: Result<seq<Route>, ParseError>): (p: Result<seq<Route>, ParseError>)
    ensures p.Ok? <==> r.Ok?
    ensures p.Ok? ==> p.value == prefix + r.value
    ensures p.Err? ==> p.error == r.error
  {
    match r
    case Ok(rs) => Ok(prefix + rs)
    case Err(e) => Err(e)
  }

  /** The routes whose entries start at j and before end, decoded one after another. */
  function RoutesFrom(response: seq<byte>, j: nat, end: nat): Result<seq<Route>, ParseError>
    decreases end - j
  {
    if j >= end then Ok([])
    else
      RouteEntryAtCases(response, j);
      match RouteEntryAt(response, j)
      case Err(e) => Err(e)
      case Ok((route, next)) => PrependRoutes([route], RoutesFrom(response, next, end))
  }

  /** The successful case of RouteEntryAt, in the terms parse_route computes it. */
  lemma RouteEntryAtOk(response: seq<byte>, j: nat, net: nat, mask: nat, gateway: nat, next: nat)
    requires j < |response| && response[j] <= 32
    requires next == j + 5 + (response[j] + 7) / 8 && next <= |response|
    requires mask == MaskBits(32, LowBits(response[j]))
    requires var m := (response[j] as nat + 7) / 8;
      var shifted := Shl(BigEndianAt(response, j + 1, m), LowBits(8 * m));
      net == Shl(Shr(shifted, LowBits(response[j])), LowBits(response[j]))
    requires var m := (response[j] as nat + 7) / 8;
      gateway == BigEndianAt(response, j + 1 + m, 4)
    ensures RouteEntryAt(response, j) == Ok((Route(net, mask, gateway), next))
  {
  }

  lemma PrependNothing(r: Result<seq<Route>, ParseError>)
    ensures PrependRoutes([], r) == r
  {
    if r.Ok? {
      assert [] + r.value == r.value;
    }
  }

  lemma PrependTwice(a: seq<Route>, b: seq<Route>, r: Result<seq<Route>, ParseError>)
    ensures PrependRoutes(a, PrependRoutes(b, r)) == PrependRoutes(a + b, r)
  {
    if r.Ok? {
      assert a + (b + r.value) == (a + b) + r.value;
    }
  }

  /** `((bits + 7) & ~7) >> 3`, the number of octets that hold the significant bits. */
  method MaskLenBytes(maskLenBits: byte) returns (n: nat)
    ensures n == (maskLenBits + 7) / 8
  {
    n := BitAnd(maskLenBits as nat + 7, MaskBits(9, 3)) / Pow2(3);
    MaskLenBytesIsCeiling(maskLenBits);
  }

  /** `0xFFFFFFFF & (0xFFFFFFFF << (32 - bits))`, the top bits bits of a 32-bit word. */
  method PrefixMask(maskLenBits: byte) returns (mask: nat)
    requires maskLenBits <= 32
    ensures mask == MaskBits(32, LowBits(maskLenBits))
  {
    mask := BitAnd(0xFFFFFFFF, Shl(0xFFFFFFFF, LowBits(maskLenBits)));
    TopMask(LowBits(maskLenBits));
  }

  /** `(net << (32 - 8 * octets)) & mask` for the network read from the octets. */
  method NetworkOf(net: nat, octets: nat, maskLenBits: byte, mask: nat) returns (network: nat)
    requires octets <= 4 && maskLenBits <= 32 && net < Pow2(8 * octets)
    requires mask == MaskBits(32, LowBits(maskLenBits))
    ensures var shifted := Shl(net, LowBits(8 * octets));
      network == Shl(Shr(shifted, LowBits(maskLenBits)), LowBits(maskLenBits))
  {
    network := Shl(net, LowBits(8 * octets));
    ShlFits(net, 8 * octets, LowBits(8 * octets), 32);
    ClearLowBits(network, 32, LowBits(maskLenBits));
    ShrShl(network, LowBits(maskLenBits));
    network := BitAnd(network, mask);
  }

  /** One pass of parse_route's loop body: the route entry at j, as parse_route computes it. */
  method ParseRouteEntry(response: seq<byte>, j: nat) returns (r: Result<(Route, nat), ParseError>)
    ensures r == RouteEntryAt(response, j)
  {
    var k := j;
    if k >= |response| {
      return Err(IndexOutOfRange(k));
    }
    var maskLenBits := response[k];
    var maskLenBytes := MaskLenBytes(maskLenBits);
    if maskLenBits > 32 {
      return Err(NegativeShiftCount(32 - maskLenBits as int));
    }
    var mask := PrefixMask(maskLenBits);
    k := k + 1;
    if k + maskLenBytes > |response| {
      return Err(IndexOutOfRange(|response|));
    }
    var net := UnpackBigEndian(response, k, maskLenBytes);
    net := NetworkOf(net, maskLenBytes, maskLenBits, mask);
    k := k + maskLenBytes;
    if k + 4 > |response| {
      return Err(IndexOutOfRange(|response|));
    }
    var gateway := UnpackBigEndian(response, k, 4);
    k := k + 4;
    RouteEntryAtOk(response, j, net, mask, gateway, k);
    return Ok((Route(net, mask, gateway), k));
  }

  /** parse_route(response, option, i, length, bytes_recv). */
  method ParseRoute(response: seq<byte>, i: nat, length: nat) returns (r: Result<seq<Route>, ParseError>)
    ensures r == RoutesFrom(response, i + 2, i + length + 2)
  {
    var routes: seq<Route> := [];
    var j := i + 2;
    PrependNothing(RoutesFrom(response, j, i + length + 2));
    while j < i + length + 2
      invariant RoutesFrom(response, i + 2, i + length + 2) == PrependRoutes(routes, RoutesFrom(response, j, i + length + 2))
      decreases i + length + 2 - j
    {
      var entry := ParseRouteEntry(response, j);
      RouteEntryAtCases(response, j);
      if entry.Err? {
        return Err(entry.error);
      }
      var (route, next) := entry.value;
      PrependTwice(routes, [route], RoutesFrom(response, next, i + length + 2));
      routes := routes + [route];
      j := next;
    }
    assert routes + [] == routes;
    return Ok(routes);
  }

  /**
   * `((bits + 7) & ~7) >> 3` is the number of octets needed for bits bits. On the
   * non-negative values below 2^9 that bits + 7 takes, `& ~7` is the same as
   * masking with 2^9 - 2^3.
   */
  lemma MaskLenBytesIsCeiling(bits: byte)
    ensures BitAnd(bits as nat + 7, MaskBits(9, 3)) / Pow2(3) == (bits + 7) / 8
    ensures 8 * ((bits + 7) / 8) >= bits && 8 * ((bits + 7) / 8) < bits + 8
  {
    Pow2Constants();
    ClearLowBits(bits as nat + 7, 9, 3);
    RoundDownDivisible(bits as nat + 7, 8);
  }

  /** The significant octets moved to the top of the word still fit in 32 bits. */
  lemma ShiftedFits(s: seq<byte>, k: nat, n: nat)
    requires k + n <= |s| && n <= 4
    ensures Shl(BigEndianAt(s, k, n), LowBits(8 * n)) < Pow2(32)
  {
    BigEndianAtBound(s, k, n);
    ShlFits(BigEndianAt(s, k, n), 8 * n, LowBits(8 * n), 32);
  }

  /**
   * What a decoded entry is: the mask has the top p bits set for the prefix
   * length p, and the network and the gateway are 32-bit values, the network
   * with no bit set outside the mask.
   */
  lemma RouteEntryShape(response: seq<byte>, j: nat)
    requires RouteEntryAt(response, j).Ok?
    ensures var route := RouteEntryAt(response, j).value.0;
      var p := response[j];
      && route.mask == MaskBits(32, LowBits(p))
      && route.network < Pow2(32) && LowBitsClear(route.network, LowBits(p))
      && route.gateway < Pow2(32)
  {
    var p := response[j];
    var m := (p + 7) / 8;
    ShiftedFits(response, j + 1, m);
    BigEndianAtBound(response, j + 1 + m, 4);
    var shifted := Shl(BigEndianAt(response, j + 1, m), LowBits(8 * m));
    ShrShl(shifted, LowBits(p));
    LowBitsClearIsMod(Shl(Shr(shifted, LowBits(p)), LowBits(p)), LowBits(p));
  }

  /** A route in the form of RFC 3442: a prefix length, a destination and a router. */
  datatype ClasslessRoute = ClasslessRoute(prefix: nat, destination: nat, router: nat)

  /** A destination that fits its prefix: 32-bit, with no bit set past the prefix. */
  predicate WellFormed(c: ClasslessRoute)
  {
    c.prefix <= 32 && c.destination < Pow2(32) && c.router < Pow2(32)
    && LowBitsClear(c.destination, LowBits(c.prefix))
  }

  /**
   * Encoding of one route: the prefix length, the significant octets of the
   * destination (its top (prefix + 7) / 8 octets) and the four octets of the router.
   */
  function EncodeRoute(c: ClasslessRoute): (e: seq<byte>)
    requires WellFormed(c)
    ensures |e| == 5 + (c.prefix + 7) / 8
  {
    var m := (c.prefix + 7) / 8;
    [c.prefix] + BytesOf(Shr(c.destination, LowBits(8 * m)), m) + BytesOf(c.router, 4)
  }

  predicate AllWellFormed(cs: seq<ClasslessRoute>)
  {
    cs == [] || (WellFormed(cs[0]) && AllWellFormed(cs[1..]))
  }

  function EncodeRoutes(cs: seq<ClasslessRoute>): seq<byte>
    requires AllWellFormed(cs)
  {
    if cs == [] then [] else EncodeRoute(cs[0]) + EncodeRoutes(cs[1..])
  }

  /** The route parse_route reports for an encoded route. */
  function Decoded(c: ClasslessRoute): Route
    requires c.prefix <= 32
  {
    Route(c.destination, MaskBits(32, LowBits(c.prefix)), c.router)
  }

  function DecodedAll(cs: seq<ClasslessRoute>): (rs: seq<Route>)
    requires AllWellFormed(cs)
    ensures |rs| == |cs|
  {
    if cs == [] then [] else [Decoded(cs[0])] + DecodedAll(cs[1..])
  }

  /**
   * The arithmetic of a round trip: the significant octets of an aligned destination
   * fit in them, moving them back to the top of the word restores the destination,
   * and clearing the bits below the prefix leaves it unchanged.
   */
  lemma DestinationRoundTrip(d: nat, p: nat)
    requires p <= 32 && d < Pow2(32) && LowBitsClear(d, LowBits(p))
    ensures var m := (p + 7) / 8;
      && Shr(d, LowBits(8 * m)) < Pow2(8 * m)
      && Shl(Shr(d, LowBits(8 * m)), LowBits(8 * m)) == d
      && Shl(Shr(d, LowBits(p)), LowBits(p)) == d
  {
    var m := (p + 7) / 8;
    var l := LowBits(8 * m);
    ShrIsDiv(d, l);
    Pow2Add(8 * m, l);
    DivLess(d, Pow2(l), Pow2(8 * m));
    LowBitsClearIsMod(d, LowBits(p));
    ModPow2Smaller(d, l, LowBits(p));
    ShrShl(d, l);
    ShrShl(d, LowBits(p));
  }

  /** Decoding an encoded entry, wherever it sits in the response, gives the route back. */
  lemma DecodeEncodeRoute(c: ClasslessRoute, s: seq<byte>, j: nat, next: nat)
    requires WellFormed(c)
    requires next == j + |EncodeRoute(c)| && next <= |s| && s[j..next] == EncodeRoute(c)
    ensures RouteEntryAt(s, j) == Ok((Decoded(c), next))
  {
    EncodedFields(c, s, j, next);
    EntryOfBytes(c, s, j, next);
  }

  /** The entry whose bytes are those of an encoded route decodes to that route. */
  lemma EntryOfBytes(c: ClasslessRoute, s: seq<byte>, j: nat, next: nat)
    requires WellFormed(c)
    requires var m := (c.prefix + 7) / 8;
      && next == j + 5 + m && next <= |s| && s[j] == c.prefix
      && s[j + 1..j + 1 + m] == BytesOf(Shr(c.destination, LowBits(8 * m)), m)
      && s[j + 1 + m..j + 1 + m + 4] == BytesOf(c.router, 4)
    ensures RouteEntryAt(s, j) == Ok((Decoded(c), next))
  {
    DestinationRead(c, s, j, next);
    RouterRead(c, s, j, next);
    EntryOfFields(c, s, j, next);
  }

  /** The octets of the destination read back as the destination moved down. */
  lemma DestinationRead(c: ClasslessRoute, s: seq<byte>, j: nat, next: nat)
    requires WellFormed(c)
    requires var m := (c.prefix + 7) / 8;
      && next == j + 5 + m && next <= |s|
      && s[j + 1..j + 1 + m] == BytesOf(Shr(c.destination, LowBits(8 * m)), m)
    ensures var m := (c.prefix + 7) / 8; BigEndianAt(s, j + 1, m) == Shr(c.destination, LowBits(8 * m))
  {
    var m := (c.prefix + 7) / 8;
    var k := j + 1;
    var x := Shr(c.destination, LowBits(8 * m));
    DestinationRoundTrip(c.destination, c.prefix);
    ReadBack(s, k, m, x);
  }

  /** The four router octets read back as the router. */
  lemma RouterRead(c: ClasslessRoute, s: seq<byte>, j: nat, next: nat)
    requires WellFormed(c)
    requires var m := (c.prefix + 7) / 8;
      && next == j + 5 + m && next <= |s|
      && s[j + 1 + m..j + 1 + m + 4] == BytesOf(c.router, 4)
    ensures var m := (c.prefix + 7) / 8; BigEndianAt(s, j + 1 + m, 4) == c.router
  {
    var m := (c.prefix + 7) / 8;
    var k := j + 1 + m;
    Pow2Constants();
    ReadBack(s, k, 4, c.router);
  }

  /** Where an encoded entry sits in s: its prefix length, its octets and its router bytes. */
  lemma EncodedFields(c: ClasslessRoute, s: seq<byte>, j: nat, next: nat)
    requires WellFormed(c)
    requires next == j + |EncodeRoute(c)| && next <= |s| && s[j..next] == EncodeRoute(c)
    ensures var m := (c.prefix + 7) / 8;
      && next == j + 5 + m && s[j] == c.prefix
      && s[j + 1..j + 1 + m] == BytesOf(Shr(c.destination, LowBits(8 * m)), m)
      && s[j + 1 + m..j + 1 + m + 4] == BytesOf(c.router, 4)
  {
    var e := EncodeRoute(c);
    var m := (c.prefix + 7) / 8;
    var octets := BytesOf(Shr(c.destination, LowBits(8 * m)), m);
    assert e == [c.prefix] + octets + BytesOf(c.router, 4);
    assert e[1..1 + m] == octets;
    assert e[1 + m..5 + m] == BytesOf(c.router, 4);
    assert s[j] == s[j..j + |e|][0] == c.prefix;
    SliceOfSegment(s, j, e, 1, 1 + m);
    SliceOfSegment(s, j, e, 1 + m, 1 + m + 4);
  }

  /** The entry whose fields are those of an encoded route decodes to that route. */
  lemma EntryOfFields(c: ClasslessRoute, s: seq<byte>, j: nat, next: nat)
    requires WellFormed(c)
    requires var m := (c.prefix + 7) / 8;
      && next == j + 5 + m && next <= |s| && s[j] == c.prefix
      && BigEndianAt(s, j + 1, m) == Shr(c.destination, LowBits(8 * m))
      && BigEndianAt(s, j + 1 + m, 4) == c.router
    ensures RouteEntryAt(s, j) == Ok((Decoded(c), next))
  {
    NetworkOfFields(c, s, j, next);
    var mask := MaskBits(32, LowBits(s[j]));
    RouteEntryAtOk(s, j, c.destination, mask, c.router, next);
  }

  /** Moving the read octets up and clearing the bits below the prefix gives the destination back. */
  lemma NetworkOfFields(c: ClasslessRoute, s: seq<byte>, j: nat, next: nat)
    requires WellFormed(c)
    requires var m := (c.prefix + 7) / 8;
      && next == j + 5 + m && next <= |s| && s[j] == c.prefix
      && BigEndianAt(s, j + 1, m) == Shr(c.destination, LowBits(8 * m))
    ensures var m := (s[j] as nat + 7) / 8;
      var shifted := Shl(BigEndianAt(s, j + 1, m), LowBits(8 * m));
      c.destination == Shl(Shr(shifted, LowBits(s[j])), LowBits(s[j]))
  {
    DestinationRoundTrip(c.destination, c.prefix);
  }

  /** The routes rs decode one entry after another from position j of s, ending at end. */
  predicate EntriesAt(s: seq<byte>, j: nat, end: nat, rs: seq<Route>)
    decreases |rs|
  {
    if rs == [] then j == end
    else
      var entry := RouteEntryAt(s, j);
      j < end && entry.Ok? && entry.value.0 == rs[0] && EntriesAt(s, entry.value.1, end, rs[1..])
  }

  lemma EntriesAtStep(s: seq<byte>, j: nat, end: nat, route: Route, next: nat, rs: seq<Route>)
    requires j < end && RouteEntryAt(s, j) == Ok((route, next))
    requires EntriesAt(s, next, end, rs)
    ensures EntriesAt(s, j, end, [route] + rs)
  {
    assert ([route] + rs)[1..] == rs;
  }

  /** An encoded list of routes sits in s as one decodable entry after another. */
  lemma {:induction false} EncodedEntries(cs: seq<ClasslessRoute>, s: seq<byte>, j: nat, end: nat)
    requires AllWellFormed(cs)
    requires end == j + |EncodeRoutes(cs)| && end <= |s| && s[j..end] == EncodeRoutes(cs)
    ensures EntriesAt(s, j, end, DecodedAll(cs))
    decreases |cs|
  {
    if cs != [] {
      var c := cs[0];
      var later := cs[1..];
      var next := j + |EncodeRoute(c)|;
      SplitEncoded(cs, s, j, next, end);
      DecodeEncodeRoute(c, s, j, next);
      EncodedEntries(later, s, next, end);
      EntriesAtStep(s, j, end, Decoded(c), next, DecodedAll(later));
    }
  }

  /** Decoding entry after entry up to the end yields exactly those routes. */
  lemma {:induction false} RoutesFromEntries(s: seq<byte>, j: nat, end: nat, rs: seq<Route>)
    requires EntriesAt(s, j, end, rs)
    ensures RoutesFrom(s, j, end) == Ok(rs)
    decreases |rs|
  {
    if rs != [] {
      var next := RouteEntryAt(s, j).value.1;
      RoutesFromEntries(s, next, end, rs[1..]);
      RoutesFromStep(s, j, end, rs[0], next, rs[1..]);
      assert [rs[0]] + rs[1..] == rs;
    }
  }

  /** Decoding the encoding of a list of routes gives the list back, in order. */
  lemma DecodeEncodeRoutes(cs: seq<ClasslessRoute>, s: seq<byte>, j: nat, end: nat)
    requires AllWellFormed(cs)
    requires end == j + |EncodeRoutes(cs)| && end <= |s| && s[j..end] == EncodeRoutes(cs)
    ensures RoutesFrom(s, j, end) == Ok(DecodedAll(cs))
  {
    EncodedEntries(cs, s, j, end);
    RoutesFromEntries(s, j, end, DecodedAll(cs));
  }

  /** The encoding of a non-empty list is the first route's encoding followed by the rest's. */
  lemma SplitEncoded(cs: seq<ClasslessRoute>, s: seq<byte>, j: nat, next: nat, end: nat)
    requires cs != [] && AllWellFormed(cs)
    requires next == j + |EncodeRoute(cs[0])|
    requires end == j + |EncodeRoutes(cs)| && end <= |s| && s[j..end] == EncodeRoutes(cs)
    ensures next <= |s| && s[j..next] == EncodeRoute(cs[0])
    ensures end == next + |EncodeRoutes(cs[1..])| && s[next..end] == EncodeRoutes(cs[1..])
  {
    SplitSegment(s, j, EncodeRoute(cs[0]), EncodeRoutes(cs[1..]));
  }

  /** One step of RoutesFrom: a decoded entry followed by the routes after it. */
  lemma RoutesFromStep(s: seq<byte>, j: nat, end: nat, route: Route, next: nat, rs: seq<Route>)
    requires j < end && RouteEntryAt(s, j) == Ok((route, next))
    requires RoutesFrom(s, next, end) == Ok(rs)
    ensures RoutesFrom(s, j, end) == Ok([route] + rs)
  {
  }

  /** Where the payload of an option sits in the response that holds it. */
  lemma PayloadAt(head: seq<byte>, payload: seq<byte>, rest: seq<byte>, start: nat, end: nat)
    requires |payload| < 256
    requires start == |head| + 2 && end == |head| + |payload| + 2
    ensures var s := head + [249, |payload|] + payload + rest;
      end == start + |payload| && end <= |s| && s[start..end] == payload
  {
    MiddleOf(head + [249, |payload|], payload, rest);
  }

  /** The entry 24 / 10.0.0 / 192.168.1.1 is the route (10.0.0.0, 255.255.255.0, 192.168.1.1). */
  lemma ExampleRoute()
    ensures RoutesFrom([24, 10, 0, 0, 192, 168, 1, 1], 0, 8) == Ok([Route(0x0A000000, 0xFFFFFF00, 0xC0A80101)])
  {
    var s: seq<byte> := [24, 10, 0, 0, 192, 168, 1, 1];
    Pow2Constants();
    assert LowBits(24) == 8 && LowBits(8 * 3) == 8;
    assert BigEndianAt(s, 1, 3) == 0x0A0000;
    assert BigEndianAt(s, 4, 4) == 0xC0A80101;
    assert Shl(0x0A0000, 8) == 0x0A000000;
    assert Shr(0x0A000000, 8) == 0x0A0000;
    assert MaskBits(32, 8) == 0xFFFFFF00;
    assert RouteEntryAt(s, 0) == Ok((Route(0x0A000000, 0xFFFFFF00, 0xC0A80101), 8));
    RoutesFromStep(s, 0, 8, Route(0x0A000000, 0xFFFFFF00, 0xC0A80101), 8, []);
    assert [Route(0x0A000000, 0xFFFFFF00, 0xC0A80101)] + [] == [Route(0x0A000000, 0xFFFFFF00, 0xC0A80101)];
  }
}
