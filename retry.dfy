/**
 * DhcpHandler._send_dhcp_req and send_dhcp_req: up to five attempts with the same
 * request, a wait after each failed one, and the parse of the response that was
 * accepted. What the network does on each attempt is an input: the socket either
 * fails (socket_send raises DhcpError) or returns some bytes.
 */
module DhcpRetry {
  import opened ByteUtil
  import opened Wrappers
  import opened DhcpRequest
  import opened DhcpValidate
  import opened DhcpRoutes
  import opened DhcpOptions

  /** The seconds slept after the first, second, ... failed attempt. */
  const WaitingDurations: seq<nat> := [0, 10, 30, 60, 60]

  /** What socket_send did on one attempt. */
  datatype Attempt = TransportError | Received(response: seq<byte>)

  /** The response the loop returns (None after five failures) and the waits it made first. */
  datatype Schedule = Schedule(response: Option<seq<byte>>, sleeps: seq<nat>)

  /** The attempts from the k-th on, with accept telling which responses end the loop. */
  function RetryFrom(outcomes: seq<Attempt>, accept: seq<byte> -> bool, k: nat): Schedule
    requires |outcomes| == |WaitingDurations|
    decreases |WaitingDurations| - k
  {
    if k >= |WaitingDurations| then Schedule(None, [])
    else if outcomes[k].Received? && accept(outcomes[k].response) then Schedule(Some(outcomes[k].response), [])
    else
      var later := RetryFrom(outcomes, accept, k + 1);
      Schedule(later.response, [WaitingDurations[k]] + later.sleeps)
  }

  /** The attempt at k ends the loop. */
  predicate Succeeds(outcomes: seq<Attempt>, accept: seq<byte> -> bool, k: nat)
    requires k < |outcomes|
  {
    outcomes[k].Received? && accept(outcomes[k].response)
  }

  function Sum(s: seq<nat>): nat
  {
    if s == [] then 0 else s[0] + Sum(s[1..])
  }

  /**
   * The schedule of the loop: the first accepted response is returned after the
   * waits of the attempts that failed before it; with none accepted, the loop
   * returns None after all five waits, 160 seconds in all.
   */
  lemma {:induction false} RetrySchedule(outcomes: seq<Attempt>, accept: seq<byte> -> bool, k: nat)
    requires |outcomes| == |WaitingDurations| && k <= |WaitingDurations|
    ensures var s := RetryFrom(outcomes, accept, k);
      && (s.response.None? <==> forall j :: k <= j < |outcomes| ==> !Succeeds(outcomes, accept, j))
      && (s.response.None? ==> s.sleeps == WaitingDurations[k..])
      && (s.response.Some? ==>
            exists j :: (&& k <= j < |outcomes| && Succeeds(outcomes, accept, j)
                         && (forall i :: k <= i < j ==> !Succeeds(outcomes, accept, i))
                         && s.response.value == outcomes[j].response
                         && s.sleeps == WaitingDurations[k..j]))
    decreases |WaitingDurations| - k
  {
    if k < |WaitingDurations| {
      if !Succeeds(outcomes, accept, k) {
        RetrySchedule(outcomes, accept, k + 1);
        var later := RetryFrom(outcomes, accept, k + 1);
        if later.response.Some? {
          var j :| k + 1 <= j < |outcomes| && Succeeds(outcomes, accept, j)
            && (forall i :: k + 1 <= i < j ==> !Succeeds(outcomes, accept, i))
            && later.response.value == outcomes[j].response
            && later.sleeps == WaitingDurations[k + 1..j];
          ConsSlice(WaitingDurations, k, j);
        } else {
          ConsSlice(WaitingDurations, k, |WaitingDurations|);
        }
      } else {
        assert WaitingDurations[k..k] == [];
      }
    }
  }

  lemma ConsSlice<T>(s: seq<T>, k: nat, j: nat)
    requires k < j <= |s|
    ensures s[k..j] == [s[k]] + s[k + 1..j]
  {
  }

  /** Five failed attempts wait 0 + 10 + 30 + 60 + 60 = 160 seconds. */
  lemma TotalWait()
    ensures Sum(WaitingDurations) == 160
  {
    assert WaitingDurations[1..][1..][1..][1..][1..] == [];
  }

  /** A returned response is one the loop accepts, and it waited at most four times before it. */
  lemma ReturnedIsAccepted(outcomes: seq<Attempt>, accept: seq<byte> -> bool)
    requires |outcomes| == |WaitingDurations|
    ensures var s := RetryFrom(outcomes, accept, 0);
      s.response.Some? ==> accept(s.response.value) && |s.sleeps| < |WaitingDurations|
  {
    RetrySchedule(outcomes, accept, 0);
  }

  /** The loop as written: a response ends it unless validate_dhcp_resp raises. */
  function AcceptsAsWritten(request: seq<byte>): seq<byte> -> bool
    requires |request| >= CookieOffset + 4
  {
    response => !Raises(ValidateDhcpResp(request, response))
  }

  /** The loop as it is meant to be: only a response that validates ends it. */
  function AcceptsValidated(request: seq<byte>): seq<byte> -> bool
    requires |request| >= CookieOffset + 4
  {
    response => ValidateDhcpResp(request, response) == Matched
  }

  /** The loop of _send_dhcp_req over the attempts; accept(response) is "validation did not raise". */
  method RetryLoop(outcomes: seq<Attempt>, accept: seq<byte> -> bool) returns (s: Schedule)
    requires |outcomes| == |WaitingDurations|
    ensures s == RetryFrom(outcomes, accept, 0)
  {
    var sleeps: seq<nat> := [];
    for k := 0 to |WaitingDurations|
      invariant RetryFrom(outcomes, accept, 0) == Schedule(RetryFrom(outcomes, accept, k).response, sleeps + RetryFrom(outcomes, accept, k).sleeps)
    {
      if outcomes[k].Received? && accept(outcomes[k].response) {
        return Schedule(Some(outcomes[k].response), sleeps);
      }
      ghost var later := RetryFrom(outcomes, accept, k + 1);
      assert sleeps + ([WaitingDurations[k]] + later.sleeps) == (sleeps + [WaitingDurations[k]]) + later.sleeps;
      sleeps := sleeps + [WaitingDurations[k]];
    }
    assert sleeps + [] == sleeps;
    return Schedule(None, sleeps);
  }

  /** _send_dhcp_req as written. */
  method SendWithRetryAsWritten(request: seq<byte>, outcomes: seq<Attempt>) returns (s: Schedule)
    requires |request| >= CookieOffset + 4
    requires |outcomes| == |WaitingDurations|
    ensures s == RetryFrom(outcomes, AcceptsAsWritten(request), 0)
  {
    s := RetryLoop(outcomes, AcceptsAsWritten(request));
  }

  /**
   * As written, a response too short to validate (even an empty one) is returned:
   * validate_dhcp_resp returns False rather than raising, and the loop only
   * catches the exception.
   */
  lemma ShortResponseReturned(request: seq<byte>, outcomes: seq<Attempt>)
    requires |request| >= CookieOffset + 4
    requires |outcomes| == |WaitingDurations| && outcomes[0] == Received([])
    ensures RetryFrom(outcomes, AcceptsAsWritten(request), 0) == Schedule(Some([]), [])
  {
    assert ValidateDhcpResp(request, []) == TooShort;
  }

  /** _send_dhcp_req with the rejection of a too-short response that the validator's False means. */
  method SendWithRetry(request: seq<byte>, outcomes: seq<Attempt>) returns (s: Schedule)
    requires |request| >= CookieOffset + 4
    requires |outcomes| == |WaitingDurations|
    ensures s == RetryFrom(outcomes, AcceptsValidated(request), 0)
  {
    s := RetryLoop(outcomes, AcceptsValidated(request));
  }

  /** With the correction, a returned response is long enough and matches cookie, transaction id and MAC. */
  lemma ReturnedResponseValidates(request: seq<byte>, outcomes: seq<Attempt>)
    requires |request| >= CookieOffset + 4
    requires |outcomes| == |WaitingDurations|
    ensures var s := RetryFrom(outcomes, AcceptsValidated(request), 0);
      s.response.Some? ==>
        && |s.response.value| >= MinResponseLength
        && ValidateDhcpResp(request, s.response.value) == Matched
  {
    ReturnedIsAccepted(outcomes, AcceptsValidated(request));
  }

  /** Why send_dhcp_req fails. */
  datatype DiscoveryError =
    | NoResponse              // DhcpError "Failed to receive dhcp response."
    | BadRoutes(e: ParseError) // the exception parse_route raised

  /** What send_dhcp_req makes of the loop's result: the no-response error, or the parse of the response. */
  function Outcome(s: Schedule): Result<Fields, DiscoveryError>
  {
    match s.response
    case None => Err(NoResponse)
    case Some(response) =>
      match WalkOptions(response, OptionsOffset, NoFields)
      case Err(e) => Err(BadRoutes(e))
      case Ok(fields) => Ok(fields)
  }

  /** The outcome of send_dhcp_req for the built request, with the corrected loop. */
  function Discovery(request: seq<byte>, outcomes: seq<Attempt>): Result<Fields, DiscoveryError>
    requires |request| >= CookieOffset + 4
    requires |outcomes| == |WaitingDurations|
  {
    Outcome(RetryFrom(outcomes, AcceptsValidated(request), 0))
  }

  /** The outcome of send_dhcp_req for the built request, with the loop as written. */
  function DiscoveryAsWritten(request: seq<byte>, outcomes: seq<Attempt>): Result<Fields, DiscoveryError>
    requires |request| >= CookieOffset + 4
    requires |outcomes| == |WaitingDurations|
  {
    Outcome(RetryFrom(outcomes, AcceptsAsWritten(request), 0))
  }

  /** The tail of send_dhcp_req: raise on no response, otherwise parse it. */
  method ParseReply(s: Schedule) returns (r: Result<Fields, DiscoveryError>)
    ensures r == Outcome(s)
  {
    if s.response.None? {
      return Err(NoResponse);
    }
    var parsed := ParseDhcpResp(s.response.value);
    if parsed.Err? {
      return Err(BadRoutes(parsed.error));
    }
    r := Ok(parsed.value);
  }

  /** send_dhcp_req up to the parse, with the corrected loop: build the request, send it with retries, parse the response. */
  method SendDhcpReq(macAddr: seq<byte>, requestBroadcast: bool, transId: seq<byte>, outcomes: seq<Attempt>)
    returns (r: Result<Fields, DiscoveryError>)
    requires |macAddr| >= 6 && |transId| >= 4
    requires |outcomes| == |WaitingDurations|
    ensures exists request :: IsDiscoverRequest(request, transId, macAddr, requestBroadcast) && r == Discovery(request, outcomes)
  {
    var request := BuildDhcpRequest(macAddr, requestBroadcast, transId);
    var s := SendWithRetry(request, outcomes);
    r := ParseReply(s);
  }

  /** send_dhcp_req up to the parse, as written. */
  method SendDhcpReqAsWritten(macAddr: seq<byte>, requestBroadcast: bool, transId: seq<byte>, outcomes: seq<Attempt>)
    returns (r: Result<Fields, DiscoveryError>)
    requires |macAddr| >= 6 && |transId| >= 4
    requires |outcomes| == |WaitingDurations|
    ensures exists request :: IsDiscoverRequest(request, transId, macAddr, requestBroadcast) && r == DiscoveryAsWritten(request, outcomes)
  {
    var request := BuildDhcpRequest(macAddr, requestBroadcast, transId);
    var s := SendWithRetryAsWritten(request, outcomes);
    r := ParseReply(s);
  }

  /**
   * As written, an empty first reply ends send_dhcp_req at once, without a wait,
   * with endpoint, gateway and routes all unset.
   */
  lemma EmptyReplyParsedAsWritten(request: seq<byte>, outcomes: seq<Attempt>)
    requires |request| >= CookieOffset + 4
    requires |outcomes| == |WaitingDurations| && outcomes[0] == Received([])
    ensures RetryFrom(outcomes, AcceptsAsWritten(request), 0).sleeps == []
    ensures DiscoveryAsWritten(request, outcomes) == Ok(NoFields)
  {
    ShortResponseReturned(request, outcomes);
  }

  /** Five transport failures end send_dhcp_req with its "no response" error. */
  lemma NoResponseAfterFiveFailures(request: seq<byte>, outcomes: seq<Attempt>)
    requires |request| >= CookieOffset + 4
    requires |outcomes| == |WaitingDurations|
    requires forall k :: 0 <= k < |outcomes| ==> outcomes[k] == TransportError
    ensures Discovery(request, outcomes) == Err(NoResponse)
    ensures RetryFrom(outcomes, AcceptsValidated(request), 0).sleeps == WaitingDurations
  {
    RetrySchedule(outcomes, AcceptsValidated(request), 0);
    assert WaitingDurations[0..] == WaitingDurations;
  }
}
