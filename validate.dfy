/**
 * discovery.validate_dhcp_resp: fixed-offset comparison of a response with the
 * request it answers. A short response makes the function return False; a
 * mismatch of the cookie, the transaction id or the hardware address raises
 * DhcpError, checked in that order; otherwise it returns None.
 */
module DhcpValidate {
  import opened ByteUtil
  import opened DhcpRequest

  /** Shortest response the validator inspects (0xF6 bytes). */
  const MinResponseLength: nat := 0xF6

  datatype Validation =
    | TooShort                 // returns False
    | CookieMismatch           // raises DhcpError
    | TransactionIdMismatch    // raises DhcpError
    | HardwareAddressMismatch  // raises DhcpError
    | Matched                  // returns None

  /** The outcomes on which validate_dhcp_resp raises DhcpError. */
  predicate Raises(v: Validation)
  {
    v.CookieMismatch? || v.TransactionIdMismatch? || v.HardwareAddressMismatch?
  }

  function ValidateDhcpResp(request: seq<byte>, response: seq<byte>): (v: Validation)
    requires |request| >= CookieOffset + 4
    ensures v == TooShort <==> |response| < MinResponseLength
    ensures v == CookieMismatch <==>
      |response| >= MinResponseLength && request[CookieOffset..CookieOffset + 4] != response[CookieOffset..CookieOffset + 4]
    ensures v == TransactionIdMismatch <==>
      && |response| >= MinResponseLength
      && request[CookieOffset..CookieOffset + 4] == response[CookieOffset..CookieOffset + 4]
      && request[TransactionIdOffset..TransactionIdOffset + 4] != response[TransactionIdOffset..TransactionIdOffset + 4]
    ensures v == HardwareAddressMismatch <==>
      && |response| >= MinResponseLength
      && request[CookieOffset..CookieOffset + 4] == response[CookieOffset..CookieOffset + 4]
      && request[TransactionIdOffset..TransactionIdOffset + 4] == response[TransactionIdOffset..TransactionIdOffset + 4]
      && request[HardwareAddressOffset..HardwareAddressOffset + 6] != response[HardwareAddressOffset..HardwareAddressOffset + 6]
    ensures v == Matched <==>
      && |response| >= MinResponseLength
      && request[CookieOffset..CookieOffset + 4] == response[CookieOffset..CookieOffset + 4]
      && request[TransactionIdOffset..TransactionIdOffset + 4] == response[TransactionIdOffset..TransactionIdOffset + 4]
      && request[HardwareAddressOffset..HardwareAddressOffset + 6] == response[HardwareAddressOffset..HardwareAddressOffset + 6]
  {
    if |response| < MinResponseLength then TooShort
    else if !SameBytes(request, response, CookieOffset, 4) then CookieMismatch
    else if !SameBytes(request, response, TransactionIdOffset, 4) then TransactionIdMismatch
    else if !SameBytes(request, response, HardwareAddressOffset, 6) then HardwareAddressMismatch
    else Matched
  }

  /** Only the length class and the three compared ranges matter: every other byte is irrelevant. */
  lemma ValidationIgnoresOtherBytes(request: seq<byte>, r1: seq<byte>, r2: seq<byte>)
    requires |request| >= CookieOffset + 4
    requires |r1| >= MinResponseLength && |r2| >= MinResponseLength
    requires forall k :: (CookieOffset <= k < CookieOffset + 4
                          || TransactionIdOffset <= k < TransactionIdOffset + 4
                          || HardwareAddressOffset <= k < HardwareAddressOffset + 6) ==> r1[k] == r2[k]
    ensures ValidateDhcpResp(request, r1) == ValidateDhcpResp(request, r2)
  {
    assert r1[CookieOffset..CookieOffset + 4] == r2[CookieOffset..CookieOffset + 4];
    assert r1[TransactionIdOffset..TransactionIdOffset + 4] == r2[TransactionIdOffset..TransactionIdOffset + 4];
    assert r1[HardwareAddressOffset..HardwareAddressOffset + 6] == r2[HardwareAddressOffset..HardwareAddressOffset + 6];
  }

  /**
   * Against a built request, a long enough response is accepted iff it carries the
   * magic cookie, the request's transaction id and its hardware address.
   */
  lemma ValidateAgainstBuiltRequest(
    request: seq<byte>, transId: seq<byte>, macAddr: seq<byte>, requestBroadcast: bool, response: seq<byte>)
    requires |transId| >= 4 && |macAddr| >= 6
    requires IsDiscoverRequest(request, transId, macAddr, requestBroadcast)
    requires |response| >= MinResponseLength
    ensures ValidateDhcpResp(request, response) == Matched <==>
      && response[CookieOffset..CookieOffset + 4] == MagicCookie
      && response[TransactionIdOffset..TransactionIdOffset + 4] == transId[..4]
      && response[HardwareAddressOffset..HardwareAddressOffset + 6] == macAddr[..6]
    ensures Raises(ValidateDhcpResp(request, response)) <==> ValidateDhcpResp(request, response) != Matched
  {
    assert request[CookieOffset..CookieOffset + 4] == request[CookieOffset..CookieOffset + 8][..4];
  }

  /** A response that starts with the whole request and is long enough is accepted. */
  lemma EchoedRequestMatches(request: seq<byte>, response: seq<byte>)
    requires |request| >= CookieOffset + 4 && |response| >= MinResponseLength
    requires |response| >= |request| && response[..|request|] == request
    ensures ValidateDhcpResp(request, response) == Matched
  {
    assert forall k :: 0 <= k < |request| ==> response[k] == request[k] by {
      forall k | 0 <= k < |request| ensures response[k] == request[k] {
        assert response[..|request|][k] == request[k];
      }
    }
    assert request[CookieOffset..CookieOffset + 4] == response[CookieOffset..CookieOffset + 4];
    assert request[TransactionIdOffset..TransactionIdOffset + 4] == response[TransactionIdOffset..TransactionIdOffset + 4];
    assert request[HardwareAddressOffset..HardwareAddressOffset + 6] == response[HardwareAddressOffset..HardwareAddressOffset + 6];
  }
}
