# morse_cli host link stack in Dafny

This project models the host side of the `morse_cli` command channel and proves properties
about it. On that channel a command travels from the CLI to a Morse Micro chip. The model
covers these layers:

- **SLIP** (`Slip`, RFC 1055). It has the byte-stuffing encoder `slip_tx`, which pushes bytes
  into a sink whose results it collects. It also has the byte-at-a-time receiver `slip_rx`, with
  its four outcomes: complete, in progress, buffer limit and error.
- **CRC-16/XMODEM** (`Crc16`, `Crc16Table`, `Crc16Bitwise`). The table-driven fold of the serial
  link is proved equal to the bit-at-a-time definition. The proof covers every seed and every
  input.
- **The SLIP-over-UART backend** (`UartSlip`). It covers:
  - buffer allocation, with 6 bytes of overhead;
  - configuration parsing;
  - framing, where a frame is the payload, a 4-byte sequence tag and the little-endian CRC;
  - the receive loop, which ignores short, corrupt or stale frames and fails on decode errors.
  The UART is abstract: a write is a function from call number to result, and the reads are a
  finite sequence of events. The random tag is a parameter.
- **The transport front end** (`Transport`). It covers:
  - backend lookup in an operation table that may hold placeholder entries;
  - the `(a|b|c)` regular expression of backend names;
  - the dispatchers, which forward a request or refuse it with an error code;
  - deinit, and the buffer helpers.
- **The command envelope** (`Command`). `morsectrl_send_command` stamps the request header,
  calls the transport and returns the device's status word.
- **Off-chip statistics decoding** (`OffchipStatistics`). Values of 1, 2, 4 or 8 bytes are read
  signed or unsigned. A statistics record is looked up by its tag.
- **Three command handlers** (`Whitelist`, `TcpKeepalive`, `ArpPeriodicRefresh`). Each turns
  parsed command-line arguments into a packed payload, or refuses them. `CliArgs` holds what
  the handlers share.

Bytes are `bv8`. Integer arguments are C `int`s, modelled as `CliArgs.Int32`. Wherever the
source narrows an integer, the model writes the narrowing out with `%`. This happens in
`htobe16`, in `htole16`, and in stores into `uint8_t` or `uint32_t` fields.

## Model

| member | source | states |
|---|---|---|
| Slip.Init | transport/slip.h:44 | A fresh receiver holds the given buffer, has an empty packet and is not escaping. |
| Slip.Reset | transport/slip.h:46-50 | A reset keeps the buffer, empties the packet and clears the escape flag. |
| Slip.ResetIsInit | transport/slip.h:44-50 | A reset receiver equals a fresh one over the same buffer, and a second reset changes nothing. |
| Slip.Append | transport/slip.c:29-40 | A full buffer yields BUFFER_LIMIT and leaves the state unchanged. Otherwise the byte is appended to the packet, and the rest of the buffer and the escape flag are kept. |
| Slip.Rx | transport/slip.c:42-87 | COMPLETE comes exactly at an unescaped END closing a non-empty packet, and leaves the state unchanged. ERROR comes exactly when an escape is followed by something other than ESC_END or ESC_ESC, and it empties the packet. BUFFER_LIMIT comes exactly when a byte would be stored into a full buffer. Otherwise the literal byte, or the byte the escape stands for, is appended. Escape is pending afterwards iff the byte was ESC with none pending, and the packet never exceeds the buffer. |
| Slip.Stuff | transport/slip.c:99-122 | Each payload byte becomes one or two wire bytes, never a raw END. |
| Slip.StuffAll | transport/slip.c:96-123 | The stuffed payload is between one and two times the payload length. |
| Slip.StuffAllAppend | transport/slip.c:96-123 | Stuffing distributes over concatenation. |
| Slip.StuffAllIsStuffed | transport/slip.c:99-122 | A stuffed payload contains no END, and every ESC in it is immediately followed by ESC_END or ESC_ESC. |
| Slip.Encode | transport/slip.c:89-128 | A frame starts and ends with END and is two bytes longer than the stuffed payload. |
| Slip.EncodeDelimitsFrame | transport/slip.c:94-125 | Between the two delimiters of a frame there is no END, and the escapes are well formed. |
| Slip.TxByte | transport/slip.c:101-121 | One payload byte offers a prefix of its stuffing to the sink. The second half of an escape pair is skipped exactly when the first half fails. The result is that of the last call made. |
| Slip.TxPayload | transport/slip.c:96-123 | The loop's return value is the result of the last sink call, or the initial 0 for an empty payload. When every sink call succeeds, exactly the stuffed payload is sent. |
| Slip.Tx | transport/slip.c:89-128 | The bytes sent always start and end with END. An empty packet sends END END and returns 0. The return value is 0 or the result of a payload sink call, never that of a delimiter. When every payload call succeeds, the encoded frame is sent and 0 is returned. |
| Slip.TxMasksEarlierFailure | transport/slip.c:96-127 | A failure on an earlier byte is overwritten by a later success, so the call returns 0. |
| Slip.TxSkipsSecondHalf | transport/slip.c:101-108 | When the ESC of a pair fails, ESC_ESC is never sent and the failure is returned. |
| Slip.Feed | transport/slip.c:42-87 | The buffer size is kept, no more than the input is consumed, and IN_PROGRESS means the whole input was consumed. |
| Slip.FeedStopsFirst | transport/slip.c:42-87 | Feeding stops at the first status other than IN_PROGRESS: every shorter prefix stays in progress, and the last consumed byte produces the final state and status. |
| Slip.Stored | transport/slip.c:29-40 | Storing bytes behind a packet extends the packet by exactly those bytes. |
| Slip.FeedStuffOne | transport/slip.c:61-86 | Feeding the stuffing of one byte, when there is room for it, stores exactly that byte and goes on. |
| Slip.FeedStuffed | transport/slip.c:42-87 | Feeding a stuffed payload that fits stores the payload and does not stop inside it. |
| Slip.RoundTrip | transport/slip.c:42-128 | A fresh receiver fed the frame of a non-empty packet that fits reports COMPLETE exactly at the closing END. It then holds that packet, and the rest of its buffer is untouched. |
| Slip.EmptyFrameIgnored | transport/slip.c:44-59 | The frame of an empty packet never completes and leaves the receiver fresh. |
| Slip.OverlongHitsLimit | transport/slip.c:29-34 | A packet longer than the buffer ends in BUFFER_LIMIT, never in COMPLETE. |
| Slip.FullBufferRejects | transport/slip.c:29-40 | With the buffer full and no escape pending, the next stuffed byte (plain or escaped) reports BUFFER_LIMIT. |
| Crc16.Compute | transport/uart_slip.c:297-306 | The loop `crc = table[(crc >> 8) ^ b] ^ (crc << 8)` computes the bitwise MSB-first CRC with polynomial 0x1021. This holds from any seed. |
| Crc16.TableIsBitwise | transport/uart_slip.c:247-280 | Every entry of the lookup table is the bitwise CRC of its index. |
| Crc16.StepAgrees | transport/uart_slip.c:303 | One table step equals eight bitwise division steps. |
| Crc16.CrcIsXmodem | transport/uart_slip.c:297-306 | The table fold equals CRC-16/XMODEM for every seed and input. |
| Crc16.CrcChain | transport/uart_slip.c:297-306 | Seeding with the CRC of a prefix and continuing over the suffix gives the CRC of the whole. |
| Crc16.ByteErrorDetected | transport/uart_slip.c:297-306 | Changing any one byte of the data by a non-zero pattern, a single-bit flip included, changes the CRC. |
| Crc16.TableStepsDiffer | transport/uart_slip.c:303 | From the same register, one table step over two different bytes gives two different registers. |
| Crc16.RegisterKept | transport/uart_slip.c:297-306 | Two different registers stay different after the CRC runs over the same bytes. |
| Crc16.CheckValue | transport/uart_slip.c:247-306 | The CRC of ASCII "123456789" from seed 0 is 0x31C3, the CRC-16/XMODEM check value. |
| UartSlip.Parse | transport/uart_slip.c:118-148 | A failed allocation gives no instance and -ETRANSNOMEM. A missing or empty path gives -ETRANSNOMEM, but the instance is still published. Otherwise the path is kept (at most 255 characters) at 115200 baud. |
| UartSlip.Init | transport/uart_slip.c:159-173 | Success iff the UART opens. A failure is the positive code ETRANSERR. |
| UartSlip.Alloc | transport/uart_slip.c:198-224 | A buffer exists iff there is a transport, memory and a non-zero size. It is zeroed, and its capacity is the size plus 6 with data length equal to the size. |
| UartSlip.TxChar | transport/uart_slip.c:226-242 | A byte write succeeds (0) iff exactly one byte was written. Otherwise the result is -1. |
| UartSlip.UnsupportedRequests | transport/uart_slip.c:424-444 | For this backend the front end refuses register read with -ETRANSERR. It refuses register write, memory access and reset with -ETRANSNOTSUP. It forwards send and init, and calls the absent raw read/write callbacks through NULL. |
| UartSlip.CheckAccepts | transport/uart_slip.c:388-418 | The receive checks accept a frame iff it is at least 6 bytes and is the frame of its own payload with the expected tag. The accepted length is the payload length. |
| UartSlip.FrameAccepted | transport/uart_slip.c:327-343 | The frame built for a payload passes the receive checks and yields that payload. |
| UartSlip.OtherTagRejected | transport/uart_slip.c:408-416 | A well-formed frame carrying another tag is ignored. |
| UartSlip.Prepare | transport/uart_slip.c:327-343 | The command data becomes payload, tag, then the low and high CRC bytes of payload and tag. Its length grows by exactly 6, which is the room the allocator reserved. |
| UartSlip.Decide | transport/uart_slip.c:377-418 | A decode error or full buffer returns -ETRANSERR. A successful return only follows a frame that passes the checks, with the response length set to its payload length. |
| UartSlip.Receive | transport/uart_slip.c:353-419 | The loop returns 0 only for a frame that passes the length, CRC and tag checks. The received packet is then the frame of its first `respLen` bytes under the sent tag. Any other return is a failed read's code or -ETRANSERR. |
| UartSlip.Conclude | transport/uart_slip.c:377-419 | Leaving the inner loop returns 0 only for a frame that passes the checks. Any other return is -ETRANSERR or a failed read's code. |
| UartSlip.Exchanged | transport/uart_slip.c:308-422 | Without a transport or command, -ETRANSERR is returned and nothing is sent. Otherwise the command is framed. When every write succeeds, exactly the SLIP encoding of the frame is sent. A non-zero transmit result is returned at once: nothing is read and the response length is left as it was (uart_slip.c:346-351). |
| UartSlip.SendCommand | transport/uart_slip.c:308-422 | The send routine, written as the source's loops, computes exactly `Exchanged`. |
| UartSlip.ReadFailureIsFatal | transport/uart_slip.c:363-368 | A failed read ends the exchange with the read's own result. |
| UartSlip.IdleMidFrame | transport/uart_slip.c:369-372 | A read that returns nothing mid-frame is skipped. |
| UartSlip.ReceiveBytes | transport/uart_slip.c:360-375 | Bytes arriving one per read drive the receiver exactly as feeding them to it does. |
| UartSlip.EchoAccepted | transport/uart_slip.c:388-418 | The device's frame for a payload with the current tag is accepted, provided the response buffer holds it. |
| UartSlip.ConcludeAccepts | transport/uart_slip.c:388-418 | A complete frame that passes the checks ends the exchange with success. |
| UartSlip.CorruptedFrameRejected | transport/uart_slip.c:398-406 | A frame with any one byte corrupted fails the CRC check. This covers a single-bit flip, and a corrupted byte in the payload, the tag or the CRC itself. The receive loop then drops the frame (`IgnoredFrameSkipped`). |
| UartSlip.DataByteCorrupted | transport/uart_slip.c:398-406 | A corrupted byte before the CRC field makes the computed CRC differ from the one carried. |
| UartSlip.CrcByteCorrupted | transport/uart_slip.c:398-406 | A CRC byte replaced by any other value no longer matches the CRC of the intact data. |
| UartSlip.IgnoredFrameSkipped | transport/uart_slip.c:389-416 | A complete frame that is too short, has a bad CRC or carries another tag restarts the wait with a fresh receiver. |
| UartSlip.DecodeFailureIsFatal | transport/uart_slip.c:377-386 | A decode error or full buffer ends the exchange with -ETRANSERR. |
| UartSlip.OverlongResponseFails | transport/uart_slip.c:377-386 | A response frame longer than the response buffer fails the exchange instead of being cut. |
| UartSlip.StaleReplySkipped | transport/uart_slip.c:357-419 | A stale frame with another tag, followed by the current reply, yields the current reply. |
| UartSlip.ResumeAfterReject | transport/uart_slip.c:357-375 | After an ignored frame, the resumed wait still accepts the next good frame, despite the stale COMPLETE status it starts from. |
| UartSlip.ReplyDelivered | transport/uart_slip.c:308-422 | End to end: when every write succeeds and the device answers with the frame of `q` under the sent tag, the call returns 0. The response length is then `|q|` and the response starts with `q`. |
| UartSlip.SentInFull | transport/uart_slip.c:345-353 | When every write succeeds, the result is decided by the receive loop alone, starting from a fresh receiver over the response memory. |
| Transport.Names | transport/transport.c:37-80 | The table iterator visits exactly the names of the real entries. |
| Transport.NamesAppend | transport/transport.c:37-80 | The names of a concatenated table are those of its parts in order, so each real entry contributes its name once, in table order. |
| Transport.Find | transport/transport.c:88-103 | The result is the first entry that matches (the first real entry when no name is given), or none when nothing matches. |
| Transport.FindNamed | transport/transport.c:88-103 | A name is found iff it is registered. |
| Transport.FindDefault | transport/transport.c:88-103 | With no name, a backend is found iff one is registered, and it is the first registered name. Placeholder entries are never chosen. |
| Transport.DriverCommandsSupported | transport/transport.c:179-194 | True iff some real entry has driver support. |
| Transport.AccumulateJoin | transport/transport.c:124-135 | The unguarded loop appends `(` or `|` before each name, so it builds the names joined by `|` after the opening parenthesis. |
| Transport.BuildAtLeast | transport/transport.c:112-136 | With the corrected guard the loop gives up exactly when the unguarded text would reach 127 bytes, otherwise writes exactly that text, and never writes at offset 127 or beyond. |
| Transport.RegexCorrect | transport/transport.c:105-154 | With the corrected guard, the regex exists iff there is a name and `"(" + names joined by "|" + ")"` fits the 127-byte allocation with its terminator. When it exists, it is that string. |
| Transport.RegexInBounds | transport/transport.c:117-152 | With the corrected guard, no write reaches offset 127. |
| Transport.GuardsAgree | transport/transport.c:117-152 | Both guards give the same return value, so the fix changes only the out-of-bounds writes. |
| Transport.RegexOverrun | transport/transport.c:117-135 | As written, one 200-byte name passes the guard and is written to offsets 1..200. |
| Transport.GetRegex | transport/transport.c:105-154 | The served regex is the joined names in table order when they fit, and none otherwise. It uses the corrected room check (`AtLeast`); `GuardsAgree` shows the returned value is the same as with the source's check, so only the out-of-bounds writes differ. |
| Transport.Parse | transport/transport.c:197-230 | An unknown name fails with -ETRANSNODEV. Otherwise the chosen entry is the first one matching the name, the one `Find` gives. |
| Transport.Name | transport/transport.c:232-240 | `"<invalid>"` without an instance or operations, the backend's name otherwise. |
| Transport.Dispatch | transport/transport.c:242-420 | Without an operation set every call gives -ETRANSERR. A present callback is forwarded. An absent one gives -ETRANSNOTSUP for register write, memory access and reset, and -ETRANSERR for register read and init. An absent send or raw read/write callback is called without a check, which is reported as a NULL call. |
| Transport.AbsentReadIsError | transport/transport.c:319-326 | An absent register read or init is an error, not "not supported". |
| Transport.Deinit | transport/transport.c:250-260 | Deinit always removes the operations. It returns the backend's result when there is a deinit callback, and success otherwise. |
| Transport.AfterDeinit | transport/transport.c:232-260 | After deinit every dispatcher refuses with -ETRANSERR and the name is `"<invalid>"`. |
| Transport.CmdAlloc | transport/transport.c:262-270 | No buffer without operations. An absent write allocator is called without a check, reported as a NULL call. Otherwise the request is the command header plus the size. |
| Transport.RespAlloc | transport/transport.c:272-280 | No buffer without operations. An absent read allocator is called without a check, reported as a NULL call. Otherwise the request is the response header plus the size. |
| Transport.HasReset | transport/transport.c:430-440 | False without an instance or operations, otherwise the operation set's reset flag. A backend that reports reset never has its reset request refused with -ETRANSERR. |
| Transport.HasDriver | transport/transport.c:442-452 | False without an instance or operations, otherwise the operation set's driver flag. |
| Transport.DriverSeen | transport/transport.c:179-194 | An instance of a parsed backend that reports a driver implies that the table supports driver commands. |
| Transport.RawAlloc | transport/transport.c:282-300 | Without an operation set or without the allocator callback there is no buffer. Otherwise the backend allocator is asked for exactly `size` bytes, with no header. |
| Transport.BuffFree | transport/transport.c:302-311 | Releasing no buffer is -ETRANSERR, and releasing a buffer succeeds. |
| Transport.SetCmdDataLength | transport/transport.c:313-317 | The data length becomes the command header plus the given length. The contents are unchanged. |
| Transport.SetLengthMatchesAlloc | transport/transport.c:262-317 | A command buffer allocated for `n` payload bytes and set to length `n` covers exactly its allocation. |
| Command.HeaderRoundTrip | command.c:46-50 | The header fields written little-endian read back unchanged. |
| Command.HeaderPadding | command.c:47 | Every header byte outside the three fields is zero. |
| Command.RequestHeader | command.c:48-50 | Flags are REQ_FLAG. The message id and the payload length keep their low 16 bits, and the length excludes the command header. |
| Command.SendCommand | command.c:31-74 | A missing buffer gives -ENOMEM without calling the transport. Otherwise the header is stamped and the payload kept. A negative transport result is returned unchanged, and otherwise the response's status word is returned. |
| Command.SuccessIffZeroStatus | command.c:55-73 | The call returns 0 iff the transport succeeds and the status word is all zero. Status 110 is returned as a failure. |
| Command.StatusRoundTrip | command.c:61 | A status written by the device as a little-endian 32-bit word reads back as the same signed value. |
| OffchipStatistics.LERoundTrip | offchip_statistics.c:49-119 | Little-endian bytes of a value that fits read back as the value. |
| OffchipStatistics.Unsigned | offchip_statistics.c:85-119 | Zero-extension: a supported width gives a value below 2^(8·size). Any other width gives 0. |
| OffchipStatistics.Signed | offchip_statistics.c:49-83 | Sign-extension: a supported width gives a value in the signed range of that width. Any other width gives 0. |
| OffchipStatistics.SignedUnsignedAgree | offchip_statistics.c:49-119 | The signed and unsigned readings agree modulo 2^(8·size), and they are equal iff the signed one is non-negative. |
| OffchipStatistics.UnsignedRoundTrip | offchip_statistics.c:85-119 | Any value of the width, stored little-endian, decodes unsigned to itself. |
| OffchipStatistics.SignedRoundTrip | offchip_statistics.c:49-83 | Any value of the signed range, stored in two's complement, decodes signed to itself. |
| OffchipStatistics.GetStatsOffchip | offchip_statistics.c:30-46 | Without the netlink transport there is no record. Otherwise the result is the first of the `n` records with the tag, or none iff none of them has it. |
| OffchipStatistics.FirstTag | offchip_statistics.c:34-42 | The scan returns the first index whose tag matches, or none iff no record has the tag. |
| CliArgs.Stored16 | whitelist.c:150 | A 16-bit store keeps the value modulo 2^16: the value itself when it fits, 0 when absent. |
| Whitelist.FilterCount | whitelist.c:122-128 | The count is 0 iff no filter parameter is given. |
| Whitelist.Counted | whitelist.c:122-156 | `-c` with a filter parameter fails with -1, as does a filter without parameters. Otherwise the flag and the two protocol fields are stored. |
| Whitelist.Addressed | whitelist.c:158-198 | Succeeds iff every given address parses and the netmask rules hold, and then stores the three addresses. |
| Whitelist.Masked | whitelist.c:176-198 | A netmask must parse and needs a source or destination address. Each non-zero address must lie inside it. |
| Whitelist.Ported | whitelist.c:200-218 | Only ports above 65535 are refused. Accepted ports are stored modulo 2^16. |
| Whitelist.Validate | whitelist.c:122-218 | A failed check gives -1. Success gives exactly the expected payload: the clear flag, the truncated protocols, the addresses and the truncated ports. |
| Whitelist.ValidateAccepts | whitelist.c:122-218 | The handler accepts exactly the valid arguments: `-c` alone or a non-empty filter, parsable addresses, a netmask with an address inside it, and ports at most 65535. |
| Whitelist.EncodeRoundTrip | whitelist.c:43-66 | The packed 20-byte payload, with the wider fields big-endian, decodes back to its fields. |
| Whitelist.Handle | whitelist.c:103-233 | A payload is sent iff both buffers exist and the arguments are valid. It decodes to the expected command, and the send result is returned. Otherwise -1 is returned. |
| Whitelist.ClearAlone | whitelist.c:130-138 | `-c` alone sends flags 1 followed by nineteen zero bytes. |
| Whitelist.ClearWithFilter | whitelist.c:130-136 | `-c` with any filter parameter sends nothing and returns -1. |
| Whitelist.NetmaskNeedsAddress | whitelist.c:183-187 | A netmask without either address sends nothing and returns -1. |
| Whitelist.NegativePortAccepted | whitelist.c:200-208 | Port -1 passes the check and is sent as 0xFFFF. |
| TcpKeepalive.ArgCount | tcp_keepalive.c:114-122 | The count is 0 iff no parameter is given, the enable word included. |
| TcpKeepalive.BitMask | tcp_keepalive.c:35-41 | `BIT(k)` as a byte is `1 << k`. |
| TcpKeepalive.Enabled | tcp_keepalive.c:130-140 | The enabled byte is 1 iff the word is `enable`, and 0 otherwise. |
| TcpKeepalive.MarkOne | tcp_keepalive.c:150 | Or-ing in bit `j` sets bit `j` when asked and leaves every other bit alone. |
| TcpKeepalive.CfgBitsSupplied | tcp_keepalive.c:142-217 | Bit k of `set_cfgs` is set iff the k-th setting was supplied, in the order period, retry count, retry interval, source IP, destination IP, source port, destination port. Bit 7 is never set. |
| TcpKeepalive.Period | tcp_keepalive.c:142-151 | A period is accepted iff it is in 1..65535. It is then stored and marked by bit 0. |
| TcpKeepalive.RetryCount | tcp_keepalive.c:153-163 | A retry count is accepted iff it is in 0..255. It is then stored and marked by bit 1; without one the payload is unchanged. |
| TcpKeepalive.RetryInterval | tcp_keepalive.c:165-175 | A retry interval is accepted iff it is in 1..255. It is then stored and marked by bit 2; without one the payload is unchanged. |
| TcpKeepalive.Retries | tcp_keepalive.c:153-175 | Count then interval, each range-checked. A given value is stored and marked; one not given leaves its byte at 0 and its bit clear. Nothing else changes. |
| TcpKeepalive.Settings | tcp_keepalive.c:142-175 | The three range checks in order. Each given value is stored and marked. |
| TcpKeepalive.Endpoints | tcp_keepalive.c:177-217 | Accepted iff the addresses parse and no port exceeds 65535. Each given value is stored and marked by its bit. |
| TcpKeepalive.Validate | tcp_keepalive.c:112-217 | No parameter at all fails with -1. Otherwise the call succeeds iff every check passes, and gives the enable byte, the marked `set_cfgs` and the stored fields. A byte setting not given stays at the cleared payload's 0. |
| TcpKeepalive.Checked | tcp_keepalive.c:112-217 | After the count check, success iff settings and endpoints are acceptable, with every given field stored and marked, and the retry settings not given left at 0. |
| TcpKeepalive.EncodeRoundTrip | tcp_keepalive.c:48-59 | The packed 18-byte payload decodes back to its fields. Each field is read in the byte order it was written in. |
| TcpKeepalive.PeriodByteOrder | tcp_keepalive.c:58-149 | The period is written little-endian into a field declared big-endian. Read in the declared order, it gives the byte-swapped period, which equals the period iff its two bytes are equal. |
| TcpKeepalive.Handle | tcp_keepalive.c:95-232 | A payload is sent iff both buffers exist and the arguments are valid. It carries the enable byte, the `set_cfgs` bits and all eight stored fields, with 0 for a retry setting not given, and the send result is returned. Otherwise -1 is returned. |
| TcpKeepalive.NoParameters | tcp_keepalive.c:124-128 | Without any parameter nothing is sent and -1 is returned. |
| TcpKeepalive.EnableWord | tcp_keepalive.c:130-140 | The first payload byte is 1 iff the word is `enable`, and 0 otherwise. |
| TcpKeepalive.SentCfgBits | tcp_keepalive.c:142-217 | In a sent payload, bit k of `set_cfgs` is set iff the k-th setting was supplied. |
| ArpPeriodicRefresh.EncodeRoundTrip | arp_periodic_refresh.c:32-37 | The 9-byte payload (period in host order, the address octets, the flag) decodes back to its fields. |
| ArpPeriodicRefresh.PeriodBound | arp_periodic_refresh.c:85-93 | The unsigned bound on the converted period holds exactly for periods 0..4294967, which convert to themselves. |
| ArpPeriodicRefresh.Handle | arp_periodic_refresh.c:66-141 | Without buffers, 0 is returned and nothing is sent. Otherwise a payload is sent iff a period in 0..4294967 (an unsigned comparison) is given with a parsed address, or the period is 0 and no address is given. The payload carries the period, the address (or the bytes already there) and the flag. A refusal returns the parser's code for an unparsable address, and EINVAL otherwise. |
| ArpPeriodicRefresh.Send | arp_periodic_refresh.c:129-130 | The sent payload decodes to the parameters, and the send result is returned. |
| ArpPeriodicRefresh.NegativePeriodRejected | arp_periodic_refresh.c:87-92 | A negative period converts to at least 2^31 and is refused with EINVAL. |
| ArpPeriodicRefresh.MillisecondsFit | arp_periodic_refresh.c:27-30 | Every period that is sent still fits 32 bits once converted to milliseconds. |
| ArpPeriodicRefresh.DisableWithoutAddress | arp_periodic_refresh.c:102-117 | Period 0 without an address is sent, and the address bytes are left as they were. |
| ArpPeriodicRefresh.PeriodNeedsAddress | arp_periodic_refresh.c:112-117 | A non-zero period without an address is refused with EINVAL. |
| Bytes.LE16RoundTrip | command.c:48-49 | A 16-bit value written little-endian reads back unchanged. |
| Bytes.BE16RoundTrip | whitelist.c:150 | A 16-bit value written big-endian reads back unchanged. |
| Bytes.BE32RoundTrip | whitelist.c:160 | A 32-bit address stored in network order reads back unchanged. |
| Bytes.LE32RoundTrip | command.c:61 | A 32-bit value written little-endian reads back unchanged. |
| Bytes.ToInt32 | command.c:61 | The C `int` reading of a 32-bit word lies in the signed range, agrees with the word modulo 2^32, and is 0 iff the word is 0. |

## Left out

- `transport/nl80211.c`: netlink sockets and callbacks into libnl, whose behaviour is not visible. It is not part of this model. Without it, `get_stats_offchip` always gives no record, and `OffchipStatistics.GetStatsOffchip` takes the build flag as a parameter.
- The OS serial layer is not modelled (`uart_init`, `uart_read`, `uart_write`, `uart_deinit`). The UART's results are inputs: `write` maps a call number to its result, and reads are a finite sequence of failure, nothing or one byte. Whether the UART opened is a boolean. `uart_slip_deinit` only clears the context and returns `uart_deinit`'s result, so it has no member of its own.
- `uart_slip_send` reads `resp->data` and `resp->capacity` (uart_slip.c:319) before it tests `resp` for NULL (line 322). A NULL response buffer is therefore undefined behaviour, not -ETRANSERR. The model always has a response buffer: every handler checks both buffers before it sends (whitelist.c:106, tcp_keepalive.c:106, arp_periodic_refresh.c:80).
- The receive loop of `uart_slip_send` waits forever while no frame arrives. The model runs it over a finite event sequence, and reports `Blocked` where the source would still be reading. No timeout is invented.
- `rand()` and `srand(time(NULL))` are not modelled. The four sequence-tag bytes are a parameter.
- `calloc` failures are booleans (`memoryOk`, `buffers`). Memory ownership is not modelled. Every handler leaves through a single exit label that releases both buffers on every path, and the model records no heap.
- The header layout of `struct command` and `struct response`, and the status offset, are declared outside the modelled files. They are parameters (`Transport.Layout`, `Command.Fields`) with a fit predicate.
- Calls through a NULL callback pointer are undefined behaviour in C. `Transport.Dispatch` reports them as `NullCall` and `Transport.CmdAlloc` / `Transport.RespAlloc` as `NullAlloc`; what happens next is not modelled.
- CmdAlloc: the backend's `write_alloc` is called without a check (transport.c:269). An absent one gives `NullAlloc`, and the model does not say what the call then does.
- RespAlloc: the backend's `read_alloc` is called without a check (transport.c:278). An absent one gives `NullAlloc`, and the model does not say what the call then does.
- Transport.Dispatch: `morsectrl_transport_send` checks only for an operation set and calls `send` without a check (transport.c:366-374); so do the raw read/write dispatchers. An absent callback gives `NullCall`, with no result modelled.
- Transport.RawAlloc: the model states only the request made of the backend. Whether a buffer comes back is the backend's choice; `uart_slip_alloc` still returns none for size 0 or a failed `calloc` (uart_slip.c:206-219), as `UartSlip.Alloc` states.
- Transport.Parse: the chosen entry's own `parse` callback is called without a check (transport.c:227), and what it does belongs to the backend. The model returns the chosen entry.
- Command.SendCommand requires the send callback to be present when there is an operation set (`Transport.CanCall`), because the source would call it through NULL otherwise.
- `inet_pton` and `str_to_ip` are not modelled. Their outcome is the argument: `CliArgs.IpArg`, `ArpPeriodicRefresh.DestArg`. The argtable parser is also not modelled, and optional arguments arrive as `Option` values. The enable word of `tcp_keepalive` arrives as the string given.
- `morsectrl_transport_list_available`, `mctrl_err`, `morsectrl_transport_debug` and `morsectrl_transport_err` only print. They are not modelled, and neither is the debug output of `morsectrl_send_command`.
- `morsectrl.c`, with its command dispatch and exit-code clamp, is not part of this model. Neither are the other command handlers (otp, hw_version, version, health, coredump, maxampdulen, gpioctrl).
- `MCTRL_ASSERT` in `uart_slip_send` aborts when the command buffer is too small. `UartSlip.Prepare` requires the room instead. The allocator always leaves that room (`UartSlip.Alloc`).
- `size_t` wrap-around in `set_cmd_data_length` and `cmd_alloc` is not modelled: sizes are natural numbers. The `uint16_t` fields of the request header do wrap, as written.
- The `ArpPeriodicRefresh.Handle` address field: when the period is 0 and no address is given, the source never writes the address. The model sends `prior`, the bytes the buffer held before the call.
- `UartSlip.Init` returns the positive `ETRANSERR` when the UART does not open, where every other path returns a negated code. This is modelled as written.
- The allocation failure of `ArpPeriodicRefresh.Handle` returns the initial 0, reporting success without sending. This is modelled as written.
- ArpPeriodicRefresh.Encode: the period is copied in host byte order. The model writes it little-endian, which assumes a little-endian host.
- OffchipStatistics.Signed: the source copies the value bytes into a native signed integer (offchip_statistics.c:57-76). The model reads them little-endian, which assumes a little-endian host.
- OffchipStatistics.Unsigned: the source copies the value bytes into a native unsigned integer (offchip_statistics.c:93-112). The model reads them little-endian, which assumes a little-endian host.
- The period of `TcpKeepalive` is written with `htole16` into a field declared `be16_t`. This is modelled as written; `TcpKeepalive.PeriodByteOrder` states the consequence.

## Findings

| source | as written | input that shows it | evidently intended | confidence | as-written member | corrected member |
|---|---|---|---|---|---|---|
| transport/transport.c:117 | The regex loop gives up only when `name_len + 1 == TRANSPORT_REGEX_MAXLEN - len`. | A single registered name of 200 bytes: the test is false, and `'('` plus the name are written to offsets 0..200 of the 127-byte allocation. | Give up whenever `name_len + 1 >= TRANSPORT_REGEX_MAXLEN - len`, so no write leaves the allocation. The returned value is the same either way (`Transport.GuardsAgree`). | not executed | Transport.RegexOverrun | Transport.RegexInBounds |
