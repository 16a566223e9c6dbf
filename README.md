# DHCP endpoint discovery, modelled in Dafny

This project models the Python endpoint-discovery client of the Scheduled Events
sample. The client finds the address of the platform's control endpoint by
broadcasting a DHCPDISCOVER. It then reads the vendor option 245 (the endpoint),
option 3 (the default router, section 3.5 of RFC 2132) and option 249 (classless
static routes) out of the reply. The model covers the following in
`python/discovery/discovery.py`:

- the 244-byte request built by `build_dhcp_request`;
- the fixed-offset comparison done by `validate_dhcp_resp`;
- the five-attempt retry loop of `_send_dhcp_req` and the `send_dhcp_req` built on it;
- the option walk of `parse_dhcp_resp`, together with `parse_ip_addr` and `parse_route`.

It also covers these helpers in `python/util.py`:

- the byte helpers it uses: `unpack`, `unpack_big_endian` and `compare_bytes`;
- its text helpers: `hex_dump`, `hex_dump2`, `hex_dump3`, `int_to_ip4_addr`,
  `hexstr_to_bytearray`, `is_printable`, `is_in_range` and `make_address`;
- the selection rule of `DefaultOSUtil.get_primary_interface`.

Modules, one per concern:

| module | file | models |
|---|---|---|
| `Wrappers` | wrappers.dfy | `Option` and `Result` |
| `Bits` | bits.dfy | Python's `<<`, `>>`, `&` and `\|` on non-negative integers, and masks |
| `ByteUtil` | bytes.dfy | big-endian reads, byte comparison, the octets of a 32-bit value |
| `TextUtil` | text.dfy | `%u`, `%0NX`, dotted quads, hex strings and their decoding, printable bytes, the events URL |
| `DhcpRequest` | request.dfy | `build_dhcp_request`, written in place into an `array` |
| `DhcpValidate` | validate.dfy | `validate_dhcp_resp` |
| `DhcpRoutes` | routes.dfy | `parse_route`, with an encoder used to state its round trip |
| `DhcpOptions` | options.dfy | `parse_ip_addr` and `parse_dhcp_resp` |
| `DhcpRetry` | retry.dfy | `_send_dhcp_req` and `send_dhcp_req` |
| `HexDumping` | hexdump.dfy | the `hex_dump` loop and its reference definition |
| `HexDumpLayout` | hexlayout.dfy | the layout of the dump: widths, columns, lines |
| `RouteTable` | routetable.dfy | the primary-interface rule over already-split routing-table rows |

## How the code is modelled

- **Loops.** The loops of the source are methods with `while`/`for` loops.
  Those of unpack, hexstr_to_bytearray, hex_dump and its padding and text
  loops, parse_route, parse_dhcp_resp and the retry loop are proved equal to a
  recursive reference function, and the properties are lemmas about that
  function. The loop of compare_bytes is specified by a quantifier over the
  compared range. The route-table loop is specified by the property
  `IsPrimaryAmong` of the row it picks. The assignment loops of
  build_dhcp_request are `WriteBytes`, specified cell by cell against the old
  contents of the array.
- **Bytes** are `nat`s below 256. Python integers are unbounded, and so are
  Dafny's.
- **`<<`, `>>`, `&` and `|`** are defined bit by bit. Lemmas relate them to `*`,
  `/` and `%`.
- **Exceptions** are results. parse_route raises `IndexError` on a truncated
  entry and `ValueError` on a shift count below zero (a prefix length above 32).
  These are `Err` values that end the option walk and `send_dhcp_req`, as the
  exceptions do in the source. validate_dhcp_resp's three `DhcpError`s are the
  `Validation` outcomes marked by `Raises`.
- **The network** is an input. The outcome of each of the five `socket_send`
  calls is either a transport error or the bytes received.
- **The waits** of `time.sleep` are returned as the list of durations slept.
- **The transaction id** from `os.urandom(4)` and the MAC address are
  parameters.

Facts about the code that the model keeps:

- the request is 244 bytes long;
- in the code, a response shorter than 0xF6 bytes ends the retry loop and is
  returned, then parsed into unset fields. `SendWithRetryAsWritten` and
  `SendDhcpReqAsWritten` model this. `SendWithRetry` and `SendDhcpReq` model
  the evidently intended behaviour, where such a response is retried (see
  Findings);
- an exception raised while parsing option 249 ends `send_dhcp_req`; the walk
  does not skip the option;
- one transaction id is drawn per `build_dhcp_request`, so every attempt resends
  the same request.

## Model

| member | source | states |
|---|---|---|
| ByteUtil.Unpack | python/util.py:113-120 | the shift-or loop over the listed offsets yields the big-endian value of the gathered bytes |
| ByteUtil.UnpackBigEndian | python/util.py:122-126 | reading `length` bytes from `offset` yields their big-endian value, equal to the weighted sum of the slice and below 2^(8·length) |
| ByteUtil.CompareBytes | python/util.py:185-189 | the loop answers true exactly when the two buffers agree at every offset of the range |
| ByteUtil.OctetsBigEndian | python/util.py:191-198 | the four octets `(a >> 24) & 0xFF` … `a & 0xFF` of a 32-bit value read back big-endian to that value |
| ByteUtil.BigEndianOctets | python/util.py:191-198 | the octets of the big-endian value of four bytes are those four bytes |
| ByteUtil.BigEndianBytesOf | python/util.py:122-126 | a value below 2^(8n) written as n big-endian bytes reads back to itself |
| ByteUtil.BytesOfBigEndian | python/util.py:122-126 | any byte string is the n-byte big-endian encoding of the value read from it |
| Bits.OrIntoLowBits | python/util.py:119 | `(result << 8) \| byte` adds the byte, because it fits below the shifted bits |
| Bits.TopMask | python/discovery/discovery.py:191 | `0xFFFFFFFF & (0xFFFFFFFF << (32 - k))` is the 32-bit mask of the top k bits |
| TextUtil.FormatHex | python/util.py:149 | `%0NX` gives at least N characters, all upper-case hex digits |
| TextUtil.FormatHexRoundTrip | python/util.py:149 | `%0NX` of n reads back, in hex, to n, and is as long as the longer of N and the digits of n |
| TextUtil.FormatHexByte | python/util.py:153 | `%02X` of a byte is its high and its low hex digit |
| TextUtil.FormatHexOffset | python/util.py:149 | `%06X` of an offset below 2^24 is exactly six characters, which read back to the offset |
| TextUtil.HexOfBytes | python/util.py:128-132 | the hex string has two characters per byte, and the pair at 2k is `%02X` of byte k |
| TextUtil.HexDump3 | python/util.py:128-132 | within the buffer, hex_dump3 is the hex of the `length` bytes at `offset`; past its end, the slice is clamped and two characters come per byte that remains |
| TextUtil.HexDump2 | python/util.py:134-138 | hex_dump2 of a buffer is two characters a byte, the pair at 2k being `%02X` of byte k |
| TextUtil.HexStrToByteArray | python/util.py:201-208 | the loop over two-character chunks yields the decoding of the string, or the first chunk `int(_, 16)` or `struct.pack` rejects |
| TextUtil.DecodeHexDump | python/util.py:134-138 | decoding hex_dump2 of any bytes gives those bytes back |
| TextUtil.HexPairOfByte | python/util.py:207 | `int(_, 16)` of the two upper-case digits of a byte is that byte |
| TextUtil.HexDigitValueOfChar | python/util.py:207 | every upper-case hex digit reads back to its value |
| TextUtil.DecimalRoundTrip | python/util.py:195 | the `%u` text of a number reads back to that number |
| TextUtil.DecimalInjective | python/util.py:195 | distinct numbers have distinct `%u` texts |
| TextUtil.DottedQuadInjective | python/util.py:195-198 | distinct 4-byte addresses have distinct dotted-quad texts |
| TextUtil.IntToIp4Addr | python/util.py:191-198 | the dotted quad of four octets is 7 to 15 characters long |
| TextUtil.IntToIp4AddrInjective | python/util.py:191-198 | int_to_ip4_addr maps distinct 32-bit values to distinct texts |
| TextUtil.IntToIp4AddrOfBytes | python/util.py:191-198 | int_to_ip4_addr of the big-endian value of four bytes is their dotted quad |
| TextUtil.IsInRange | python/util.py:218-222 | a lies in the range exactly when its distance above low is at most high - low, and then the range is not empty |
| TextUtil.IsInRangeInclusive | python/util.py:218-222 | both bounds are in the range and the neighbours just outside are not |
| TextUtil.IsPrintable | python/util.py:210-216 | a printable code is an ASCII character other than '.' |
| TextUtil.PrintableIsLetterOrDigit | python/util.py:210-216 | a byte is printable exactly when it is an ASCII letter or digit |
| TextUtil.MakeAddress | python/util.py:45-49 | the URL is "http://", the IP address and the events path, each recoverable by position |
| TextUtil.MakeAddressInjective | python/util.py:45-49 | distinct addresses give distinct URLs |
| DhcpRequest.WriteBytes | python/discovery/discovery.py:325-353 | the indexed assignments write the bytes at the offset and leave every other cell as it was |
| DhcpRequest.BuildDhcpRequest | python/discovery/discovery.py:318-354 | the request is 244 bytes with op/htype/hlen 1,1,6, the transaction id at 4, the flags byte 0x80 at 0x0A exactly when broadcast is asked, the MAC at 0x1C, cookie and options 99,130,83,99,53,1,1,255 at 0xEC, zeros elsewhere |
| DhcpRequest.DiscoverRequestUnique | python/discovery/discovery.py:318-354 | the layout fixes the request: two requests for the same inputs are equal |
| DhcpRequest.RequestsDifferOnlyInTransactionIdAndFlags | python/discovery/discovery.py:318-354 | two requests for the same MAC agree on every byte outside the transaction id and the flags byte |
| DhcpRequest.FlagsField | python/discovery/discovery.py:337-341 | the 16-bit flags field reads 0x8000 for a broadcast request and 0 otherwise |
| DhcpValidate.ValidateDhcpResp | python/discovery/discovery.py:145-177 | each outcome holds exactly when its condition does: too short below 0xF6 bytes, else cookie, transaction id, MAC mismatch checked in that order, else matched |
| DhcpValidate.ValidationIgnoresOtherBytes | python/discovery/discovery.py:159-177 | the verdict on a long-enough response depends only on its cookie, transaction id and MAC bytes |
| DhcpValidate.ValidateAgainstBuiltRequest | python/discovery/discovery.py:145-177 | against a built request, a long-enough response matches exactly when it carries the magic cookie, the transaction id and the MAC; it raises otherwise |
| DhcpValidate.EchoedRequestMatches | python/discovery/discovery.py:159-177 | a long-enough response that begins with the request itself matches |
| DhcpRoutes.MaskLenBytes | python/discovery/discovery.py:190 | `((bits + 7) & ~7) >> 3` is the number of bytes needed for the prefix, `(bits + 7) / 8` |
| DhcpRoutes.MaskLenBytesIsCeiling | python/discovery/discovery.py:190 | the prefix bytes hold the prefix length and less than one byte more |
| DhcpRoutes.PrefixMask | python/discovery/discovery.py:191 | the mask is the 32-bit mask of the top prefix-length bits |
| DhcpRoutes.NetworkOf | python/discovery/discovery.py:193-195 | the network is the prefix bytes shifted to the top of 32 bits with the host bits cleared |
| DhcpRoutes.ParseRouteEntry | python/discovery/discovery.py:189-199 | one entry of the loop yields the route and the next offset, or IndexError/ValueError as the reference definition says |
| DhcpRoutes.RouteEntryAtCases | python/discovery/discovery.py:189-199 | an entry parses exactly when its prefix length is at most 32 and all its bytes are present; the next offset is 5 plus the prefix bytes later; otherwise the error names the missing index or the negative shift count |
| DhcpRoutes.RouteEntryShape | python/discovery/discovery.py:189-199 | a parsed route has the prefix mask, a 32-bit network whose host bits are clear, and a 32-bit gateway |
| DhcpRoutes.ParseRoute | python/discovery/discovery.py:180-202 | the loop yields the entries read from i+2 while the cursor is below i+length+2, or the first error |
| DhcpRoutes.DestinationRoundTrip | python/discovery/discovery.py:193-195 | a destination with clear host bits survives being cut to its prefix bytes and shifted back |
| DhcpRoutes.DecodeEncodeRoute | python/discovery/discovery.py:189-199 | an entry encoded as prefix length, significant destination bytes and router parses back to that route, the cursor moving past it |
| DhcpRoutes.DecodeEncodeRoutes | python/discovery/discovery.py:188-199 | a run of encoded entries parses back to the list of their routes |
| DhcpOptions.ParseRouteOfEncodedOption | python/discovery/discovery.py:180-202 | an option 249 whose length byte counts a payload of encoded routes yields exactly those routes, read from the option's own length |
| DhcpRoutes.ExampleRoute | python/discovery/discovery.py:189-199 | the entry 24,10,0,0,192,168,1,1 is the route 10.0.0.0/255.255.255.0 via 192.168.1.1 |
| DhcpOptions.ParseIpAddr | python/discovery/discovery.py:205-215 | an address comes back exactly when i+5 is inside the response and the length is 4, and it is the dotted quad of the four value bytes |
| DhcpOptions.NextOption | python/discovery/discovery.py:259 | the cursor moves at least two bytes per option |
| DhcpOptions.ParseDhcpResp | python/discovery/discovery.py:218-260 | the loop from 0xF0 equals the reference walk of the options |
| DhcpOptions.CursorsShape | python/discovery/discovery.py:235-259 | the walk visits cursors inside the response, none on an end tag, each following the previous by length plus two, at most half the bytes many |
| DhcpOptions.WalkError | python/discovery/discovery.py:246-247 | the walk fails exactly when some visited option 249 fails to parse, with the first such error |
| DhcpOptions.LastEndpointWins | python/discovery/discovery.py:252-253 | the endpoint is parse_ip_addr of the last option 245 visited, or unset when there is none |
| DhcpOptions.LastGatewayWins | python/discovery/discovery.py:248-249 | the gateway is parse_ip_addr of the last option 3 visited, or unset when there is none |
| DhcpOptions.LastRoutesWin | python/discovery/discovery.py:246-247 | the routes are those of the last option 249 visited, or unset when there is none |
| DhcpOptions.UnknownOptionSkipped | python/discovery/discovery.py:256-259 | any other tag is skipped by its length plus two and changes nothing |
| DhcpOptions.ExampleEndpoint | python/discovery/discovery.py:252-253 | options 245,4,10,0,0,1,255 give the endpoint "10.0.0.1" |
| DhcpOptions.ExampleEndpointOverwritten | python/discovery/discovery.py:205-209 | a later option 245 of length 3 overwrites an earlier endpoint with None |
| DhcpOptions.ExamplePadSwallowsOption | python/discovery/discovery.py:256-259 | a pad byte 0 is read as a tag with a length, so the option after it is skipped |
| DhcpRetry.RetrySchedule | python/discovery/discovery.py:73-84 | the loop returns the first accepted response after sleeping the durations of the failed attempts before it, or nothing after sleeping all five |
| DhcpRetry.TotalWait | python/discovery/discovery.py:74 | the waits add up to 160 seconds |
| DhcpRetry.ReturnedIsAccepted | python/discovery/discovery.py:75-81 | a returned response was accepted, after fewer than five waits |
| DhcpRetry.RetryLoop | python/discovery/discovery.py:75-84 | the for loop equals the reference schedule |
| DhcpRetry.SendWithRetryAsWritten | python/discovery/discovery.py:73-84 | the loop as written accepts every response for which validation raises nothing |
| DhcpRetry.ShortResponseReturned | python/discovery/discovery.py:79-80 | as written, an empty response on the first attempt is returned without any wait |
| DhcpRetry.SendWithRetry | python/discovery/discovery.py:73-84 | the corrected loop accepts only matched responses |
| DhcpRetry.ReturnedResponseValidates | python/discovery/discovery.py:79-80 | with the correction, a returned response is long enough and matches the request |
| DhcpRetry.ParseReply | python/discovery/discovery.py:103-105 | no response gives the no-response error; otherwise the result is the option walk of the response, or its route error |
| DhcpRetry.SendDhcpReqAsWritten | python/discovery/discovery.py:86-105 | as written: the result is the outcome, for a well-formed request, of the loop that accepts every response validation does not raise on |
| DhcpRetry.EmptyReplyParsedAsWritten | python/discovery/discovery.py:79-80 | as written, an empty first reply ends send_dhcp_req at once, without a wait, with endpoint, gateway and routes all unset |
| DhcpRetry.SendDhcpReq | python/discovery/discovery.py:86-105 | corrected: the result is the parse of the matched reply to a well-formed request, or the no-response error, or the route error |
| DhcpRetry.NoResponseAfterFiveFailures | python/discovery/discovery.py:101-104 | five transport failures sleep all five durations and end in the no-response error |
| HexDumping.LowBitsTest | python/util.py:154 | `i & 7` and `i & 15` are `i % 8` and `i % 16` |
| HexDumping.PadLoop | python/util.py:157-162 | the padding loop writes the reference padding for the rest of the line |
| HexDumping.TextColumn | python/util.py:164-171 | the text loop writes the printable-or-dot characters of the bytes of the current line |
| HexDumping.HexDumpWith | python/util.py:140-174 | the dump is the reference dump of the first size bytes, of the whole buffer when size < 0, and fails past the end |
| HexDumping.HexDump | python/util.py:140-174 | hex_dump as written equals the reference dump with the source's padding |
| HexDumping.HexDumpFixed | python/util.py:140-174 | the corrected hex_dump equals the reference dump with aligned padding |
| HexDumpLayout.CellLength | python/util.py:153-155 | a byte takes three characters, four after the eighth byte |
| HexDumpLayout.OpenLineLength | python/util.py:148-155 | after m bytes a line is 8+3m characters long, one more once the middle gap is written |
| HexDumpLayout.PadIntendedLength | python/util.py:157-162 | the aligned padding for the missing positions is three spaces each, plus one when position 7 is among them |
| HexDumpLayout.PadAsWrittenLength | python/util.py:157-162 | the while loop over positions q0 … q-1 writes three spaces each, plus one when position 7 is among them |
| HexDumpLayout.HexAreaWidth | python/util.py:148-163 | with aligned padding, the text column of every line starts at column 58 |
| HexDumpLayout.HexAreaWidthAsWritten | python/util.py:157-162 | as written, a last line of exactly eight bytes has its text at column 59 |
| HexDumpLayout.CharsAt | python/util.py:164-171 | the k-th text character is the shown form of the k-th byte |
| HexDumpLayout.ShownIsLetterDigitOrDot | python/util.py:168-170 | a shown character is a letter, a digit, or a dot exactly for the bytes that are not printable |
| HexDumpLayout.LineLength | python/util.py:148-171 | a line of n bytes is 58+n characters |
| HexDumpLayout.LineText | python/util.py:163-171 | from column 58 on, a line is the text of its bytes |
| HexDumpLayout.OpenLinePrefix | python/util.py:148-149 | a line starts with the six-digit offset and ": " |
| HexDumpLayout.LineOffset | python/util.py:148-149 | the first six characters of every line read back, in hex, to the offset of its first byte, followed by ": " |
| HexDumpLayout.LinePrefix | python/util.py:148-149 | every line, under either padding, starts with the six-digit offset and ": " |
| HexDumpLayout.FullLinesLength | python/util.py:147-173 | l full lines take 75 characters each, newline included |
| HexDumpLayout.FullLineAt | python/util.py:147-173 | full line k sits at 75k and is followed by a newline |
| HexDumpLayout.DumpEndsWithText | python/util.py:172-173 | a non-empty dump ends with the shown form of its last byte and never with a newline |
| HexDumpLayout.ClosingPadsAgree | python/util.py:157-162 | the two paddings agree except for the extra space after exactly eight bytes |
| HexDumpLayout.FullLinesAgree | python/util.py:147-173 | full lines are the same under both paddings |
| HexDumpLayout.DumpsAgree | python/util.py:140-174 | the two dumps are equal unless the last line holds exactly eight bytes, where the source's is one character longer |
| RouteTable.GatewayBit | python/util.py:375 | `flags & RTF_GATEWAY == RTF_GATEWAY` tests bit 1 of the flags |
| RouteTable.PrimaryInterface | python/util.py:373-386 | '' when there is no default gateway route, otherwise the interface of the earliest such route with the lowest metric |
| RouteTable.PrimaryUnique | python/util.py:375-380 | at most one row is the primary one |
| RouteTable.PrimaryHasLowestMetric | python/util.py:375-380 | the primary route's metric is at most that of every default gateway route, and ties go to the earlier row |

## Left out

- Sockets: `socket_send` (python/discovery/discovery.py:263-282) is replaced by the outcome of each attempt, given as input.
- Firewalls and routes: `allow_dhcp_broadcast`, `route_add`, `run` and `run_get_output` run shell commands; they are not part of this model.
- Sleeping: `time.sleep` is not performed; the durations it would sleep are returned.
- Randomness: `gen_trans_id` (`os.urandom(4)`) is replaced by a transaction-id parameter.
- Interfaces: `get_mac_in_bytes` formats `uuid.getnode()`, a call into the host, so the MAC address is a parameter; `get_first_if`, `is_loopback` and `get_ip4_addr` use ioctl and are not part of this model.
- Persistence: writing the endpoint to the environment, the profile or the registry (python/discovery/discovery.py:106-143) is I/O and is not part of this model.
- HTTP: `get_scheduled_events`, `post_scheduled_events`, `check_ip_address`, `get_ip_address_reg_env`, `get_address`, python/sample.py and the argument parser are not part of this model.
- C#: the C# client under csharp/ is not part of this model.
- Python 2: `str_to_ord` and the `str` branches of hex_dump (python/util.py:151-152, 166-167) are left out; buffers are byte sequences, where `str_to_ord` is the identity.
- Output: the `print` calls and the `debug` flag are left out, and so is the `option` parameter of parse_route and parse_ip_addr, and parse_route's unused `bytes_recv`. parse_ip_addr's `bytes_recv` guard (python/discovery/discovery.py:206) is modelled as `|response|`, which is what parse_dhcp_resp passes (python/discovery/discovery.py:225).
- Routing-table file: reading /proc/net/route and finding the column indices (python/util.py:361-374) are file I/O. The rows are given already split, with Flags and Metric already converted by `int()`.
- RouteTable.PrimaryInterface: Flags is a non-negative integer. A negative Flags column, which Python's `&` would accept, is not modelled. A row too short for the header indices, which would raise `IndexError`, is not modelled either.
- TextUtil.HexStrToByteArray: `int(_, 16)` also accepts non-ASCII digits and non-ASCII white space; the model rejects them as invalid literals.
- HexDumping.HexDumpWith: `hex_dump` with size past the buffer raises `IndexError` after writing part of the dump; the model returns `None` and keeps none of the partial text.
- HexDumpLayout.LineLength: stated for offsets below 2^24, where `%06X` is exactly six digits; longer offsets widen the line.
- HexDumpLayout.LineText: stated for offsets below 2^24 only.
- HexDumpLayout.HexAreaWidth: stated for offsets below 2^24 only.
- HexDumpLayout.FullLinesLength: stated for dumps of at most 2^24 bytes only.
- HexDumpLayout.FullLineAt: stated for dumps of at most 2^24 bytes only.
- DhcpRetry.SendDhcpReq: built on the corrected retry loop `SendWithRetry`; send_dhcp_req as written is `SendDhcpReqAsWritten` (see Findings).
- DhcpOptions.ParseRouteOfEncodedOption: stated for payloads below 256 bytes, the most one length byte can count.
- DhcpRoutes.DecodeEncodeRoutes: the round trip is stated for well-formed routes, that is, a prefix of at most 32 bits, host bits clear and 32-bit values. Other inputs are covered by RouteEntryAtCases.

## Findings

| source | as written | input that shows it | evidently intended | confidence | as-written member | corrected member |
|---|---|---|---|---|---|---|
| python/discovery/discovery.py:73-84 | `validate_dhcp_resp` returns False on a response shorter than 0xF6 bytes instead of raising, and `_send_dhcp_req` ignores the return value, so the short response is returned | an empty response on the first attempt: it is returned at once and then parsed | a too-short response counts as a failed attempt, and the loop waits and retries | not executed | DhcpRetry.ShortResponseReturned | DhcpRetry.ReturnedResponseValidates |
| python/util.py:157-162 | the padding loop starts at `j = i` and adds the middle-gap space when `j & 7 == 7`, but the cell loop already wrote that gap for byte 7 | a dump whose last line holds exactly eight bytes, e.g. size 8: the text starts at column 59, not 58 | the text column is at 58 on every line | not executed | HexDumpLayout.HexAreaWidthAsWritten | HexDumpLayout.HexAreaWidth |
