/**
 * discovery.parse_dhcp_resp and parse_ip_addr: the walk over the options of a
 * DHCP response (tag, length, value, from offset 0xF0 on), keeping the last
 * occurrence of option 245 (the endpoint), option 3 (the router, section 3.5 of
 * RFC 2132) and option 249 (the classless static routes). An error raised by
 * parse_route ends the walk.
 */
module DhcpOptions {
  import opened ByteUtil
  import opened TextUtil
  import opened Wrappers
  import opened DhcpRoutes

  /** Offset of the first option, right after the magic cookie. */
  const OptionsOffset: nat := 0xF0

  const EndTag: byte := 255
  const RoutesTag: byte := 249
  const RouterTag: byte := 3
  const EndpointTag: byte := 245

  /** The triple (endpoint, gateway, routes) that parse_dhcp_resp returns. */
  datatype Fields = Fields(endpoint: Option<string>, gateway: Option<string>, routes: Option<seq<Route>>)

  const NoFields: Fields := Fields(None, None, None)

  /** parse_ip_addr: the dotted quad of the four bytes after the length byte, when they are there. */
  function ParseIpAddr(response: seq<byte>, i: nat, length: nat): (addr: Option<string>)
    ensures addr.Some? <==> i + 5 < |response| && length == 4
    ensures addr.Some? ==> addr.value == DottedQuad(response[i + 2..i + 6])
  {
    if i + 5 < |response| then
      if length != 4 then None
      else
        BigEndianAtSlice(response, i + 2, 4);
        IntToIp4AddrOfBytes(response[i + 2..i + 6]);
        Some(IntToIp4Addr(BigEndianAt(response, i + 2, 4)))
    else None
  }

  /** The length byte of the option at i, or 0 when the buffer ends right after the tag. */
  function LengthAt(response: seq<byte>, i: nat): byte
    requires i < |response|
  {
    if i + 1 < |response| then response[i + 1] else 0
  }

  /** Where the option after the one at i starts. */
  function NextOption(response: seq<byte>, i: nat): (next: nat)
    requires i < |response|
    ensures next >= i + 2
  {
    i + LengthAt(response, i) + 2
  }

  /** The routes carried by the option 249 at i. */
  function RoutesAt(response: seq<byte>, i: nat): Result<seq<Route>, ParseError>
    requires i < |response|
  {
    RoutesFrom(response, i + 2, i + LengthAt(response, i) + 2)
  }

  /** The effect of the (non-end) option at i on the fields found so far. */
  function Apply(response: seq<byte>, i: nat, acc: Fields): Result<Fields, ParseError>
    requires i < |response|
  {
    var tag := response[i];
    if tag == RoutesTag then
      match RoutesAt(response, i)
      case Err(e) => Err(e)
      case Ok(rs) => Ok(acc.(routes := Some(rs)))
    else if tag == RouterTag then Ok(acc.(gateway := ParseIpAddr(response, i, LengthAt(response, i))))
    else if tag == EndpointTag then Ok(acc.(endpoint := ParseIpAddr(response, i, LengthAt(response, i))))
    else Ok(acc)
  }

  /** The loop of parse_dhcp_resp from cursor i on, with acc the fields found before i. */
  function WalkOptions(response: seq<byte>, i: nat, acc: Fields): Result<Fields, ParseError>
    decreases |response| - i
  {
    if i >= |response| || response[i] == EndTag then Ok(acc)
    else
      match Apply(response, i, acc)
      case Err(e) => Err(e)
      case Ok(fields) => WalkOptions(response, NextOption(response, i), fields)
  }

  /** parse_dhcp_resp: the options walked from 0xF0 with nothing found yet. */
  method ParseDhcpResp(response: seq<byte>) returns (r: Result<Fields, ParseError>)
    ensures r == WalkOptions(response, OptionsOffset, NoFields)
  {
    var endpoint: Option<string> := None;
    var gateway: Option<string> := None;
    var routes: Option<seq<Route>> := None;
    var i := OptionsOffset;
    while i < |response|
      invariant WalkOptions(response, OptionsOffset, NoFields) == WalkOptions(response, i, Fields(endpoint, gateway, routes))
      decreases |response| - i
    {
      var option := response[i];
      var length: byte := 0;
      if i + 1 < |response| {
        length := response[i + 1];
      }
      assert length == LengthAt(response, i);
      ghost var before := Fields(endpoint, gateway, routes);
      if option == EndTag {
        break;
      } else if option == RoutesTag {
        var parsed := ParseRoute(response, i, length);
        if parsed.Err? {
          return Err(parsed.error);
        }
        routes := Some(parsed.value);
      } else if option == RouterTag {
        gateway := ParseIpAddr(response, i, length);
      } else if option == EndpointTag {
        endpoint := ParseIpAddr(response, i, length);
      }
      assert Apply(response, i, before) == Ok(Fields(endpoint, gateway, routes));
      i := i + length + 2;
    }
    return Ok(Fields(endpoint, gateway, routes));
  }

  /** The cursors the walk visits from i on: every option it reads before the end tag or the buffer's end. */
  function Cursors(response: seq<byte>, i: nat): seq<nat>
    decreases |response| - i
  {
    if i >= |response| || response[i] == EndTag then []
    else [i] + Cursors(response, NextOption(response, i))
  }

  /** Each visited cursor is inside the buffer, holds no end tag, and the cursors advance by at least 2. */
  lemma {:induction false} CursorsShape(response: seq<byte>, i: nat)
    ensures var cs := Cursors(response, i);
      && (forall k :: 0 <= k < |cs| ==> i <= cs[k] < |response| && response[cs[k]] != EndTag)
      && (forall k :: 0 < k < |cs| ==> cs[k] == NextOption(response, cs[k - 1]))
      && 2 * |cs| <= (if i < |response| then |response| - i + 1 else 0)
    decreases |response| - i
  {
    if i < |response| && response[i] != EndTag {
      var next := NextOption(response, i);
      CursorsShape(response, next);
      var tail := Cursors(response, next);
      assert Cursors(response, i) == [i] + tail;
      if tail != [] {
        assert tail[0] == next;
      }
    }
  }

  /** The last cursor of cs whose tag is tag. */
  function LastWith(response: seq<byte>, cs: seq<nat>, tag: byte): (p: Option<nat>)
    ensures p.Some? ==> p.value in cs && p.value < |response| && response[p.value] == tag
  {
    if cs == [] then None
    else
      match LastWith(response, cs[1..], tag)
      case Some(p) => Some(p)
      case None => if cs[0] < |response| && response[cs[0]] == tag then Some(cs[0]) else None
  }

  /** The error of the first option 249 among cs whose routes do not decode. */
  function FirstRouteError(response: seq<byte>, cs: seq<nat>): Option<ParseError>
  {
    if cs == [] then None
    else if cs[0] < |response| && response[cs[0]] == RoutesTag && RoutesAt(response, cs[0]).Err? then
      Some(RoutesAt(response, cs[0]).error)
    else FirstRouteError(response, cs[1..])
  }

  /** The walk fails exactly with the error of the first option 249 whose routes do not decode. */
  lemma {:induction false} WalkError(response: seq<byte>, i: nat, acc: Fields)
    ensures var e := FirstRouteError(response, Cursors(response, i));
      && (WalkOptions(response, i, acc).Err? <==> e.Some?)
      && (e.Some? ==> WalkOptions(response, i, acc).error == e.value)
    decreases |response| - i
  {
    if i < |response| && response[i] != EndTag {
      var cs := Cursors(response, i);
      assert cs[0] == i && cs[1..] == Cursors(response, NextOption(response, i));
      var a := Apply(response, i, acc);
      if a.Ok? {
        WalkError(response, NextOption(response, i), a.value);
      }
    }
  }

  /** The endpoint is that of the last option 245 walked over, None or not; without one it is unchanged. */
  lemma {:induction false} LastEndpointWins(response: seq<byte>, i: nat, acc: Fields)
    requires WalkOptions(response, i, acc).Ok?
    ensures WalkOptions(response, i, acc).value.endpoint ==
      match LastWith(response, Cursors(response, i), EndpointTag)
      case None => acc.endpoint
      case Some(p) => ParseIpAddr(response, p, LengthAt(response, p))
    decreases |response| - i
  {
    if i < |response| && response[i] != EndTag {
      var cs := Cursors(response, i);
      assert cs[0] == i && cs[1..] == Cursors(response, NextOption(response, i));
      LastEndpointWins(response, NextOption(response, i), Apply(response, i, acc).value);
    }
  }

  /** The gateway is that of the last option 3 walked over, None or not; without one it is unchanged. */
  lemma {:induction false} LastGatewayWins(response: seq<byte>, i: nat, acc: Fields)
    requires WalkOptions(response, i, acc).Ok?
    ensures WalkOptions(response, i, acc).value.gateway ==
      match LastWith(response, Cursors(response, i), RouterTag)
      case None => acc.gateway
      case Some(p) => ParseIpAddr(response, p, LengthAt(response, p))
    decreases |response| - i
  {
    if i < |response| && response[i] != EndTag {
      var cs := Cursors(response, i);
      assert cs[0] == i && cs[1..] == Cursors(response, NextOption(response, i));
      LastGatewayWins(response, NextOption(response, i), Apply(response, i, acc).value);
    }
  }

  /** The routes are those of the last option 249 walked over; without one they are unchanged. */
  lemma {:induction false} LastRoutesWin(response: seq<byte>, i: nat, acc: Fields)
    requires WalkOptions(response, i, acc).Ok?
    ensures match LastWith(response, Cursors(response, i), RoutesTag)
      case None => WalkOptions(response, i, acc).value.routes == acc.routes
      case Some(p) => RoutesAt(response, p).Ok? && WalkOptions(response, i, acc).value.routes == Some(RoutesAt(response, p).value)
    decreases |response| - i
  {
    if i < |response| && response[i] != EndTag {
      var cs := Cursors(response, i);
      assert cs[0] == i && cs[1..] == Cursors(response, NextOption(response, i));
      LastRoutesWin(response, NextOption(response, i), Apply(response, i, acc).value);
    }
  }

  /**
   * An option 249 whose length byte counts an encoded list of well-formed routes
   * yields exactly those routes.
   */
  lemma ParseRouteOfEncodedOption(cs: seq<ClasslessRoute>, head: seq<byte>, rest: seq<byte>)
    requires AllWellFormed(cs) && |EncodeRoutes(cs)| < 256
    ensures var payload := EncodeRoutes(cs);
      RoutesAt(head + [RoutesTag, |payload|] + payload + rest, |head|) == Ok(DecodedAll(cs))
  {
    var payload := EncodeRoutes(cs);
    var s := head + [RoutesTag, |payload|] + payload + rest;
    var i := |head|;
    assert s[i] == RoutesTag && s[i + 1] == |payload|;
    assert LengthAt(s, i) == |payload|;
    var start := i + 2;
    var end := i + |payload| + 2;
    PayloadAt(head, payload, rest, start, end);
    DecodeEncodeRoutes(cs, s, start, end);
  }

  /** An option other than 245, 3, 249 and 255 is stepped over and changes nothing. */
  lemma UnknownOptionSkipped(response: seq<byte>, i: nat, acc: Fields)
    requires i < |response|
    requires response[i] !in {EndTag, RoutesTag, RouterTag, EndpointTag}
    ensures WalkOptions(response, i, acc) == WalkOptions(response, i + LengthAt(response, i) + 2, acc)
  {
  }

  /** The bytes of a response with the given 0xF0-byte header and then the options. */
  function WithOptions(header: seq<byte>, options: seq<byte>): seq<byte>
    requires |header| == OptionsOffset
  {
    header + options
  }

  /** `[245, 4, 10, 0, 0, 1, 255]` at 0xF0 gives the endpoint "10.0.0.1" and nothing else. */
  lemma ExampleEndpoint(header: seq<byte>)
    requires |header| == OptionsOffset
    ensures WalkOptions(WithOptions(header, [245, 4, 10, 0, 0, 1, 255]), OptionsOffset, NoFields)
      == Ok(Fields(Some("10.0.0.1"), None, None))
  {
    var r := WithOptions(header, [245, 4, 10, 0, 0, 1, 255]);
    assert r[0xF0..0xF6] == [245, 4, 10, 0, 0, 1];
    assert DottedQuad([10, 0, 0, 1]) == "10.0.0.1";
    assert r[0xF6] == EndTag;
  }

  /** A later option 245 that is not 4 bytes long overwrites an earlier endpoint with None. */
  lemma ExampleEndpointOverwritten(header: seq<byte>)
    requires |header| == OptionsOffset
    ensures WalkOptions(WithOptions(header, [245, 4, 10, 0, 0, 1, 245, 3, 1, 2, 3, 255]), OptionsOffset, NoFields)
      == Ok(Fields(None, None, None))
  {
    var r := WithOptions(header, [245, 4, 10, 0, 0, 1, 245, 3, 1, 2, 3, 255]);
    assert r[0xF0..0xF6] == [245, 4, 10, 0, 0, 1];
    assert r[0xF6] == EndpointTag && r[0xF7] == 3;
    assert WalkOptions(r, 0xFB, NoFields) == Ok(NoFields) by {
      assert r[0xFB] == EndTag;
    }
    assert Apply(r, 0xF6, Fields(Some("10.0.0.1"), None, None)) == Ok(NoFields);
    assert WalkOptions(r, 0xF6, Fields(Some("10.0.0.1"), None, None)) == Ok(NoFields);
    assert DottedQuad([10, 0, 0, 1]) == "10.0.0.1";
    assert Apply(r, 0xF0, NoFields) == Ok(Fields(Some("10.0.0.1"), None, None));
  }

  /**
   * A Pad tag (0) is read with a length byte like any other option, unlike the
   * one-byte Pad of section 3.1 of RFC 2132: here it swallows the tag 245 after it
   * as its length and the endpoint is never seen.
   */
  lemma ExamplePadSwallowsOption(header: seq<byte>)
    requires |header| == OptionsOffset
    ensures WalkOptions(WithOptions(header, [0, 245, 4, 10, 0, 0, 1, 255]), OptionsOffset, NoFields)
      == Ok(NoFields)
  {
    var r := WithOptions(header, [0, 245, 4, 10, 0, 0, 1, 255]);
    assert r[0xF0] == 0 && r[0xF1] == 245;
    assert NextOption(r, 0xF0) == 0xF0 + 247;
  }
}
