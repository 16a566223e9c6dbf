/**
 * discovery.build_dhcp_request: the DHCPDISCOVER datagram, in the BOOTP/DHCP
 * message layout of section 2 of RFC 2131. The 244-byte list is zero-filled and
 * its fields are written in place, one index loop per field.
 */
module DhcpRequest {
  import opened Bits
  import opened ByteUtil

  const RequestLength: nat := 244
  const TransactionIdOffset: nat := 4
  const FlagsOffset: nat := 0x0A
  const HardwareAddressOffset: nat := 0x1C
  const CookieOffset: nat := 0xEC

  /** op = BOOTREQUEST, htype = Ethernet, hlen = 6. */
  const Header: seq<byte> := [1, 1, 6]
  /** High byte of the flags field with the broadcast bit (section 2 of RFC 2131) set. */
  const BroadcastFlagByte: byte := 0x80
  /**
   * The magic cookie 99.130.83.99 (section 3 of RFC 2131), option 53 (DHCP
   * message type, section 9.6 of RFC 2132) with value 1 = DHCPDISCOVER, and the
   * End option 255 (section 3.2 of RFC 2132).
   */
  const CookieAndOptions: seq<byte> := [99, 130, 83, 99, 53, 1, 1, 255]
  const MagicCookie: seq<byte> := [99, 130, 83, 99]

  /** The offsets the builder writes; all others keep the initial zero. */
  predicate IsWrittenOffset(k: nat)
  {
    k < 3 || TransactionIdOffset <= k < TransactionIdOffset + 4 || k == FlagsOffset
    || HardwareAddressOffset <= k < HardwareAddressOffset + 6
    || CookieOffset <= k < CookieOffset + 8
  }

  /** r is the request for this transaction id, hardware address and broadcast choice. */
  predicate IsDiscoverRequest(r: seq<byte>, transId: seq<byte>, macAddr: seq<byte>, requestBroadcast: bool)
    requires |transId| >= 4 && |macAddr| >= 6
  {
    && |r| == RequestLength
    && r[..3] == Header
    && r[TransactionIdOffset..TransactionIdOffset + 4] == transId[..4]
    && r[FlagsOffset] == (if requestBroadcast then BroadcastFlagByte else 0)
    && r[HardwareAddressOffset..HardwareAddressOffset + 6] == macAddr[..6]
    && r[CookieOffset..CookieOffset + 8] == CookieAndOptions
    && forall k :: 0 <= k < RequestLength && !IsWrittenOffset(k) ==> r[k] == 0
  }

  /** `for a in range(len(src)): buf[offset + a] = src[a]`. */
  method WriteBytes(buf: array<byte>, offset: nat, src: seq<byte>)
    requires offset + |src| <= buf.Length
    modifies buf
    ensures forall k :: 0 <= k < buf.Length ==>
      buf[k] == if offset <= k < offset + |src| then src[k - offset] else old(buf[k])
  {
    for a := 0 to |src|
      invariant forall k :: 0 <= k < buf.Length ==>
        buf[k] == if offset <= k < offset + a then src[k - offset] else old(buf[k])
    {
      buf[offset + a] := src[a];
    }
  }

  /** The request built from a hardware address, the broadcast choice and a transaction id. */
  method BuildDhcpRequest(macAddr: seq<byte>, requestBroadcast: bool, transId: seq<byte>)
    returns (request: seq<byte>)
    requires |macAddr| >= 6 && |transId| >= 4
    ensures IsDiscoverRequest(request, transId, macAddr, requestBroadcast)
  {
    var buf := new byte[RequestLength](_ => 0);
    WriteBytes(buf, 0, Header);
    WriteBytes(buf, TransactionIdOffset, transId[..4]);
    if requestBroadcast {
      buf[FlagsOffset] := BroadcastFlagByte;
    }
    WriteBytes(buf, HardwareAddressOffset, macAddr[..6]);
    WriteBytes(buf, CookieOffset, CookieAndOptions);
    request := buf[..];
  }

  /** Equal parameters give byte-for-byte equal requests. */
  lemma DiscoverRequestUnique(r1: seq<byte>, r2: seq<byte>, transId: seq<byte>, macAddr: seq<byte>, requestBroadcast: bool)
    requires |transId| >= 4 && |macAddr| >= 6
    requires IsDiscoverRequest(r1, transId, macAddr, requestBroadcast)
    requires IsDiscoverRequest(r2, transId, macAddr, requestBroadcast)
    ensures r1 == r2
  {
    forall k | 0 <= k < RequestLength
      ensures r1[k] == r2[k]
    {
      FieldBytesAgree(r1, r2, k);
    }
  }

  /** Two requests for the same hardware address differ at most in the transaction id and the flags byte. */
  lemma RequestsDifferOnlyInTransactionIdAndFlags(
    r1: seq<byte>, t1: seq<byte>, b1: bool, r2: seq<byte>, t2: seq<byte>, b2: bool, macAddr: seq<byte>)
    requires |t1| >= 4 && |t2| >= 4 && |macAddr| >= 6
    requires IsDiscoverRequest(r1, t1, macAddr, b1) && IsDiscoverRequest(r2, t2, macAddr, b2)
    ensures |r1| == |r2|
    ensures forall k ::
              0 <= k < |r1| && !(TransactionIdOffset <= k < TransactionIdOffset + 4) && k != FlagsOffset ==>
                r1[k] == r2[k]
  {
    forall k | 0 <= k < RequestLength && !(TransactionIdOffset <= k < TransactionIdOffset + 4) && k != FlagsOffset
      ensures r1[k] == r2[k]
    {
      FieldBytesAgree(r1, r2, k);
    }
  }

  /** Outside the transaction id and the flags byte, a request's bytes are fixed by the hardware address. */
  lemma FieldBytesAgree(r1: seq<byte>, r2: seq<byte>, k: nat)
    requires |r1| == RequestLength && |r2| == RequestLength && k < RequestLength
    requires r1[..3] == r2[..3]
    requires r1[HardwareAddressOffset..HardwareAddressOffset + 6] == r2[HardwareAddressOffset..HardwareAddressOffset + 6]
    requires r1[CookieOffset..CookieOffset + 8] == r2[CookieOffset..CookieOffset + 8]
    requires forall j :: 0 <= j < RequestLength && !IsWrittenOffset(j) ==> r1[j] == 0 && r2[j] == 0
    requires TransactionIdOffset <= k < TransactionIdOffset + 4 ==>
      r1[TransactionIdOffset..TransactionIdOffset + 4] == r2[TransactionIdOffset..TransactionIdOffset + 4]
    requires k == FlagsOffset ==> r1[k] == r2[k]
    ensures r1[k] == r2[k]
  {
    if k < 3 {
      assert r1[..3][k] == r2[..3][k];
    } else if TransactionIdOffset <= k < TransactionIdOffset + 4 {
      assert r1[TransactionIdOffset..TransactionIdOffset + 4][k - TransactionIdOffset]
          == r2[TransactionIdOffset..TransactionIdOffset + 4][k - TransactionIdOffset];
    } else if HardwareAddressOffset <= k < HardwareAddressOffset + 6 {
      assert r1[HardwareAddressOffset..HardwareAddressOffset + 6][k - HardwareAddressOffset]
          == r2[HardwareAddressOffset..HardwareAddressOffset + 6][k - HardwareAddressOffset];
    } else if CookieOffset <= k < CookieOffset + 8 {
      assert r1[CookieOffset..CookieOffset + 8][k - CookieOffset]
          == r2[CookieOffset..CookieOffset + 8][k - CookieOffset];
    }
  }

  /** Read as the 16-bit big-endian flags field, byte 0x0A sets exactly the broadcast bit 0x8000. */
  lemma FlagsField(r: seq<byte>, transId: seq<byte>, macAddr: seq<byte>, requestBroadcast: bool)
    requires |transId| >= 4 && |macAddr| >= 6
    requires IsDiscoverRequest(r, transId, macAddr, requestBroadcast)
    ensures BigEndian(r[FlagsOffset..FlagsOffset + 2]) == if requestBroadcast then 0x8000 else 0
  {
    assert !IsWrittenOffset(FlagsOffset + 1);
    var f := r[FlagsOffset..FlagsOffset + 2];
    assert f == [f[0]] + [f[1]];
    BigEndianAppend([f[0]], f[1]);
    BigEndianAppend([], f[0]);
    assert [] + [f[0]] == [f[0]];
  }
}
