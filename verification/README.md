# Roxy, modelled and proved in Dafny

Roxy is a transparent proxy: it sniffs the host name of a local connection, picks an upstream
server, and relays the bytes through an encrypted shadowsocks tunnel. This project models the parts
of it that carry hard promises and proves those promises for every input and every schedule.

`dafny verify dfyconfig.toml` checks the whole project.

## What is modelled

**The encrypted TCP relay**, end to end, in both directions.
`Cipher.dfy` (nonce counter), `Framing.dfy` (wire format and a one-shot decoder), `Sockets.dfy`
(non-blocking sockets), `Writer.dfy`, `Reader.dfy`, `Proxy.dfy`, `Copy.dfy`, `CopyBack.dfy`,
`Relay.dfy` (the pieces of each direction put together) and `Connection.dfy` (both directions, of which the
first to end takes the other one with it).
A socket answers each poll from a script: stall, fail, or move up to so many bytes; a script that has
run out stalls. A theorem about every script is a theorem about every schedule. The classes keep the
resumable state of the source (`pos`, `cap`, `buffer`, `state`, ...), and ghost fields record what
went through.
Every poll of the pipeline is shown to be pending exactly when a socket stalled in it, so that
whoever waits is always woken up. Each socket also accounts for its script, so that a schedule with few enough
stalls, no failure and enough moves provably brings a transfer to its end.

**Addresses and UDP packets**: `Address.dfy`, `Udp.dfy`; `Unicode.dfy` says what UTF-8 is.

**Calendar conversion**: `Calendar.dfy`. The reference calendar counts days year by year and month by
month; the conversion works on March years and nested cycles. Subset types check every `i32` and
`i64` assignment.

**Durations**: `Decimal.dfy`, `DurationPrint.dfy`, `DurationParse.dfy`, `DurationLaws.dfy` (round trips and sums),
`DurationForms.dfy` (the texts that are printed) and `DurationUnits.dfy` (units and errors of the parser).

**TLS server name sniffing**: `Sniffing.dfy`, against an encoder of ClientHello records, and `Anatomy.dfy`, which says
for every input at all which bytes lead to which answer.

**Upstream servers**: `Hashing.dfy`, `Upstream.dfy` (one thread at a time) and `UpstreamProtocol.dfy`
(loading, checking, reloading, reporting and picking, interleaved access by access).

**Rule set and replay filter**: `RuleSet.dfy`, `Replay.dfy`.

`Arith.dfy` and `Bytes.dfy` hold shared facts and types.

Wherever a method is proved equal to a function, that function is tied down by laws of its own, in numbers and bytes
written out: the layout of addresses and frames, the digits of nonces and numerals, the sizes of units, the closed
form of the hash, the fields of a hello, the code points of UTF-8.

### Hypotheses

- The AEAD is a parameter (`Suite`): sealing adds a 16-byte tag, opening a sealed text gives it back,
  and opening keeps the size (`CipherModel.Correct`; `CipherModel.SuitesExist` shows that this can be met).
- Floating point is a parameter: `DurationParse.Exact` asks that whole quotients and products of
  numbers up to 2^53 are exact, `Hashing.Widens` that a ratio of at least one never makes a bucket number smaller.
- A Bloom filter may report more than it holds, by a function that is a parameter, and misses nothing.
- Salts, keys, latency scores and host keys are parameters.

### Where the code does less than it seems to

- The first packet is cut. `copy_to_encrypted` reads up to 0x3FFF bytes and `make_first_packet_buffer`
  puts the address in front; `poll_write_encrypted` keeps only the first 0x3FFF bytes, and `poll_write`
  still reports the whole slice as written (the assertion between is compiled out of release builds,
  which is what the model does). Nothing at all is sent when the local side closes without a byte.
  `Relay.Tunnel` proves that the peer gets address and input exactly when the first read of the local
  connection, which its schedule determines, brings something and fits a packet together with the address.
  `Relay.Unhindered` gives the failing family: on a connection that never stalls, every input that does not fit
  the first packet together with the address loses bytes. `Proxy.PlainBytesComplete` and
  `Proxy.FullFirstSliceIsCut` say the same of the slices written.
- A finished copy drops the other direction, because `proxy` selects between the two copies. `Connection.Relayed`
  compares the stalls of the two directions: a local side that closes for sending, and whose way up has fewer
  stalls in all than there are in front of the first byte of the answer, receives nothing of the answer; one that stays
  open for longer than all stalls of the way back receives all of it.
- One peek may come too early. The sniffer looks once at a buffer of 1024 zeros into which whatever has arrived
  was copied. `Sniffing.SniOfPeek` proves that it finds the host name if and only if that has arrived to its end
  within those bytes; `Sniffing.PeekTooEarly` and `Sniffing.PeekGivesWrongName` give the failing family, a host
  name that ends in zero bytes and no error. The zeros are read as a server name extension too: a whole hello with
  extensions but without a server name is answered with the empty name, instead of an error, if and only if it
  leaves at least nine bytes of the buffer (`Sniffing.PeekOfBare`). And a peek that sees at most the five bytes of the
  record header reports an unknown protocol (`Anatomy.PeekUnknown`).
- Entries of another type in the server name list are skipped by their type and length only, so their data is read
  as entries. `Sniffing.SkippableExactly` says exactly which data does no harm, among it none at all;
  `Sniffing.OtherEntryMisread` gives a failing entry for every host name below 256 bytes.
- An exact rule hides the dotted rule for the same domain. `RuleSet.MatchesIntended` says exactly for
  which names the lookup answers as intended, `RuleSet.ShadowedExample` gives a failing one.
- Numerals within 48 of 2^64 overflow in `leading_int` although they fit (`DurationLaws.OverflowingNumeral`),
  and fractions near 2^63 in `leading_fraction` although it is said not to (`DurationLaws.OverflowingFraction`).
  Longer numerals overflow too if some of their first digits come that close, and are refused otherwise
  (`DurationUnits.LargeNumerals`).
  The model reports an overflow, which panics or wraps depending on the build, as an outcome of its own.
- A pick panics if and only if the published list is empty (`UpstreamProtocol.PickPanicsExactly`), and there is
  a run that gets there (`UpstreamProtocol.EmptyListRun`).
- Printing keeps the low 64 bits of the nanoseconds, so a duration survives printing and parsing if and only if
  it has 64 bits (`DurationLaws.PrintThenParse`).
- The name `*` alone has no counted label, and `length - 1` wraps: an exact entry for it never matches
  (`RuleSet.Trie.Contain`, `RuleSet.Lookup`). The model follows the release build; a debug build panics.
- Comments and code also disagree in three places, and the model follows the code: packets of exactly 0x3FFF
  bytes are accepted (lib/shadowsocks/src/tcp/aead.rs:50 says smaller); a minus sign is refused and
  days and weeks are units (src/serde/duration.rs:105-108 says otherwise).

## Model

| member | source | states |
|---|---|---|
| CipherModel.Cipher.IncreaseNonce | lib/shadowsocks/src/crypto/cipher.rs:90-101 | the nonce bytes, read as a little-endian number, grow by one modulo 256^nlen; the bytes behind them stay |
| CipherModel.Cipher.Encrypt | lib/shadowsocks/src/crypto/cipher.rs:103-107 | operation number c seals under the nonce of c, and the counter moves by one |
| CipherModel.Cipher.Decrypt | lib/shadowsocks/src/crypto/cipher.rs:109-114 | operation number c opens under the nonce of c, and the counter moves even if that fails |
| CipherModel.Cipher.constructor | lib/shadowsocks/src/crypto/cipher.rs:60-82 | a fresh cipher has the derived subkey, counter zero and an all-zero nonce |
| CipherModel.NonceSuccessor | lib/shadowsocks/src/crypto/cipher.rs:90-101 | incrementing the bytes of operation c gives the bytes of operation c + 1, wrap-around included |
| CipherModel.NonceByte | lib/shadowsocks/src/crypto/cipher.rs:90-101 | byte i of the nonce of operation c is digit i of c to base 256, lowest first |
| CipherModel.NonceDistinct | lib/shadowsocks/src/crypto/cipher.rs:90-114 | two operations less than 256^nlen apart never use the same nonce (nonce distinctness, section 2.1 of RFC 5116) |
| CipherModel.TwelveByteNonces | lib/shadowsocks/src/crypto/aead/aes_gcm.rs:17-20 | for 12-byte nonces that is 2^96 operations |
| Framing.DecodeOfFrames | lib/shadowsocks/src/tcp/aead.rs:27-33 | decoding the frames of any chunk list, empty chunks included, gives the list back with a clean end |
| Framing.DecodePrefix | lib/shadowsocks/src/tcp/aead.rs:118-293 | any prefix of the frames decodes to the whole chunks in it; the end is clean exactly on a chunk boundary, otherwise truncated, and never a corruption or a length error |
| Framing.DecodeResume | lib/shadowsocks/src/tcp/aead.rs:118-162 | for any byte string that ends cleanly, decoding goes on with the bytes behind it and the next counter |
| Framing.DecodeMonotone | lib/shadowsocks/src/tcp/aead.rs:118-162 | more bytes never take back a chunk, and a fatal error is final |
| Framing.FramesSnoc | lib/shadowsocks/src/tcp/aead.rs:349-373 | chunk number k of a stream is sealed under counters 2k and 2k + 1 |
| Framing.FramesLength | lib/shadowsocks/src/tcp/aead.rs:27-33 | every frame is 34 bytes longer than its chunk |
| Framing.FrameLayout | lib/shadowsocks/src/tcp/aead.rs:27-33 | a frame is 18 bytes that open to the size of the chunk, high byte first, and 16 more bytes than the chunk that open to it under the next counter |
| Framing.SizeLimit | lib/shadowsocks/src/tcp/aead.rs:276-293 | for every pair of size bytes: above 16383 too long, then truncated, bad data or the chunk by the size + 16 bytes that follow |
| Sockets.WriteSocket.PollWrite | lib/shadowsocks/src/tcp/aead.rs:378-383 | a ready write takes a non-empty prefix of what is offered (nothing if the peer refuses bytes); a stalled or failed one takes nothing; every answer of the script is accounted for |
| Sockets.ReadSocket.PollRead | lib/shadowsocks/src/tcp/aead.rs:254-259 | a ready read hands over the next bytes in order, none only at the end of the stream or without room; every answer of the script is accounted for |
| Sockets.ReadsOfInput | lib/shadowsocks/src/tcp/utils.rs:43-54 | the slices that a schedule makes of an input follow each other from its front, at most one for each byte, and the first one is what the first successful read brings |
| Sockets.LeadGone | lib/shadowsocks/src/tcp/utils.rs:43-54 | a schedule of which so many moves were made has also met the stalls in front of them |
| Writer.EncryptedWriter.constructor | lib/shadowsocks/src/tcp/aead.rs:316-327 | the salt waits in the buffer and no chunk exists |
| Writer.EncryptedWriter.Assemble | lib/shadowsocks/src/tcp/aead.rs:349-374 | one more chunk: sent bytes and buffer together stay salt and frames |
| Writer.EncryptedWriter.Drain | lib/shadowsocks/src/tcp/aead.rs:376-384 | any sequence of short writes keeps sent bytes and unsent buffer equal to salt and frames; success means all was sent |
| Writer.EncryptedWriter.PollWriteEncrypted | lib/shadowsocks/src/tcp/aead.rs:334-394 | under any schedule the wire and the unsent buffer are exactly salt and frames of the chunks; a new chunk starts only when none is in flight; success means the whole stream was sent; pending exactly when the socket stalled |
| Reader.DecryptLength | lib/shadowsocks/src/tcp/aead.rs:276-293 | an accepted length is what the sealed field holds and at most 0x3FFF; each error is the decoder's verdict on the field |
| Reader.DecryptedReader.PollReadExact | lib/shadowsocks/src/tcp/aead.rs:242-274 | the buffer gains exactly the bytes consumed; it is complete, or empty at the end of the stream, or the end is unexpected |
| Reader.DecryptedReader.TakeSalt | lib/shadowsocks/src/tcp/aead.rs:120-128 | the salt keys the session; an end of stream before it is complete is unexpected |
| Reader.DecryptedReader.TakeLength | lib/shadowsocks/src/tcp/aead.rs:130-137 | end of stream between chunks ends cleanly with everything delivered; a bad length is the decoder's verdict |
| Reader.DecryptedReader.TakeData | lib/shadowsocks/src/tcp/aead.rs:139-143 | one whole chunk is opened, or the decoder's verdict is reported |
| Reader.DecryptedReader.HandOver | lib/shadowsocks/src/tcp/aead.rs:145-160 | the next opened bytes are handed over, as many as there is room for |
| Reader.DecryptedReader.Refines | lib/shadowsocks/src/tcp/aead.rs:118-162 | in every reachable state the one-shot decoder finds the same chunks in the bytes consumed, and what was delivered is a prefix of them |
| Reader.DecryptedReader.PollReadDecrypted | lib/shadowsocks/src/tcp/aead.rs:112-163 | each poll delivers the next bytes of the decoded stream; an empty delivery with room is the clean end; every error but a socket failure is the decoder's verdict; pending exactly when the socket stalled |
| Reader.ReadAll | lib/shadowsocks/src/tcp/aead.rs:112-274 | for every splitting of the stream and all output sizes the output is a prefix of the one-shot decoding of the whole stream, and all of it with the decoder's verdict at the end; a poll with space that does not bring the end brings a byte, a stall or a failure |
| Reader.StreamMonotone | lib/shadowsocks/src/tcp/aead.rs:118-162 | the same for streams with their salt: more bytes only add chunks, a fatal error is final |
| AddressCodec.WriteToBuf | lib/shadowsocks/src/addr.rs:45-71 | appends exactly the serialization, segment by segment for IPv6 |
| AddressCodec.Serialize | lib/shadowsocks/src/addr.rs:195-201 | the serialization has the announced length |
| AddressCodec.SerializedLayout | lib/shadowsocks/src/addr.rs:11-71 | byte for byte the layout of section 5 of RFC 1928: types 1, 3 and 4, the address, the name behind its length, the port high byte first; a text starts with it if and only if it starts with the serialization |
| AddressCodec.ReadOfSerialized | lib/shadowsocks/src/addr.rs:73-148 | reading a serialized address, whatever follows, gives it back without flow and scope ids and stops right behind it |
| AddressCodec.SerializedOfRead | lib/shadowsocks/src/addr.rs:73-148 | conversely, what reads as an address is the one serialization of that address |
| AddressCodec.ReadExactly | lib/shadowsocks/src/addr.rs:73-148 | any byte string is read as an address if and only if one stands at its front in that layout |
| AddressCodec.ReadErrors | lib/shadowsocks/src/addr.rs:73-148 | each error exactly: another type byte, a complete name that is not UTF-8, or fewer bytes than the type and the length ask for |
| Unicode.Utf8Exactly | lib/shadowsocks/src/addr.rs:135-138 | a byte string is accepted as UTF-8 if and only if it is the encoding of a list of Unicode scalar values (section 3 of RFC 3629) |
| Proxy.ProxyStream.MakeFirstPacketBuffer | lib/shadowsocks/src/tcp/proxy.rs:246-277 | address, then payload |
| Proxy.ProxyStream.PollWrite | lib/shadowsocks/src/tcp/proxy.rs:280-330 | the chunks on the wire are those of the slices presented, the address in front of the first; a slice becomes a chunk once, whatever is presented while it is in flight |
| Proxy.PlainBytes | lib/shadowsocks/src/tcp/proxy.rs:289-327 | of the plaintext only the end of the first packet can be lost |
| Proxy.PlainBytesComplete | lib/shadowsocks/src/tcp/proxy.rs:301-319 | the plaintext is address and payload if and only if there is a first slice and it fits a packet with the address |
| Proxy.PlainBytesPrefix | lib/shadowsocks/src/tcp/proxy.rs:301-319 | if the first packet fits, the plaintext is always a prefix of address and payload |
| Proxy.FullFirstSliceIsCut | lib/shadowsocks/src/tcp/proxy.rs:301-319 | a first slice that fills the relay's buffer loses as many bytes as the address has |
| CopyModel.CopyBuffer.Fill | lib/shadowsocks/src/tcp/utils.rs:43-54 | what a read brings becomes the next waiting slice, and bytes read stay accounted for; a read that brings nothing adds no slice |
| CopyModel.CopyBuffer.Offer | lib/shadowsocks/src/tcp/utils.rs:57-68 | the slice presented after a pending write is the one in flight; the count grows by what was accepted |
| CopyModel.CopyBuffer.PollCopy | lib/shadowsocks/src/tcp/utils.rs:30-78 | bytes are conserved in order over every poll, in the slices the schedule of the local connection makes of them; success only after the end of the input with all of it accepted and sent, and returns its size; pending exactly when a socket stalled, and failing only with a socket unless the peer refuses bytes |
| CopyBackModel.CopyBack.Pour | lib/shadowsocks/src/tcp/utils.rs:57-69 | any sequence of short writes keeps written and waiting bytes equal to the bytes delivered |
| CopyBackModel.CopyBack.PollCopy | lib/shadowsocks/src/tcp/utils.rs:30-78 | from the tunnel: when it ends the local side has exactly what the reader delivered, for the reader's reason; the count is what was written |
| Relay.DecodeArrived | lib/shadowsocks/src/tcp/aead.rs:112-293 | what has arrived of a stream decodes to its whole chunks without an error; all of it to all chunks |
| Relay.Send | lib/shadowsocks/src/tcp/utils.rs:96-101 | a copy that is not through after so many polls spent each of them on a stall, or a socket failed, or the peer refuses bytes |
| Relay.Sender | lib/shadowsocks/src/tcp/utils.rs:127-147 | after any number of polls the wire holds a prefix of the stream for the slices that the schedule makes of the input; all of it once the copy is through, nothing for an empty input or a peer that refuses bytes; a schedule with few enough stalls and enough moves gets it through |
| Relay.Tunnel | lib/shadowsocks/src/tcp/utils.rs:127-147 | end to end under every schedule: the peer obtains a prefix of address and input with at most the end of the first packet lost, and no error; when all is drained all of that, which is address and input if and only if the first read, as the schedule determines it, is not empty and fits a packet with the address; what is drained of an input starts with the address in the layout of RFC 1928; then the peer reads the target and is left with the input; schedules with few enough stalls and enough moves finish both sides |
| Relay.DeliveredComplete | lib/shadowsocks/src/tcp/proxy.rs:301-319 | nothing is lost if and only if the first read is not empty and fits a packet with the header |
| Relay.Unhindered | lib/shadowsocks/src/tcp/proxy.rs:289-327 | on a connection that never stalls the transfer always ends, and the peer gets address and input if and only if the input is not empty and is at most 16383 bytes together with the address; every non-empty input arrives behind the address |
| Relay.Receive | lib/shadowsocks/src/tcp/utils.rs:105-125 | the way back under every schedule: the local side receives a prefix of the decoded stream, all of it at the end, with the decoder's verdict; nothing if it refuses bytes; a schedule with few enough stalls and enough moves brings it to the end |
| Connection.Select | lib/shadowsocks/src/tcp/proxy.rs:89-93 | both copies polled in rounds, the way up first, keep their invariants until one of them ends; each has stalled once in every round before that |
| Connection.Relayed | lib/shadowsocks/src/tcp/proxy.rs:77-94 | one connection under every schedule of its four halves: each side holds a prefix of what it is due, and the side whose copy ended holds all of it; the way up ends only after the stalls in front of the end of the input, the way back only after those in front of its first byte; the way back is completed if the local side stays open for longer than all its stalls; nothing of it is received if the way up has no stalls, or fewer than are in front of the first byte of the answer |
| Udp.EncryptPayload | lib/shadowsocks/src/udp/aead.rs:38-71 | the packet is salt and sealed address and payload, of the announced size, whatever the destination buffer held |
| Udp.DecryptPayload | lib/shadowsocks/src/udp/aead.rs:74-114 | each error for its cause; otherwise plaintext is the address found and the payload now at the front of the buffer |
| Udp.UnpackOfPack | lib/shadowsocks/src/udp/aead.rs:74-126 | unpacking a packed payload gives its size and the address; the plaintext starts with the address in the layout of RFC 1928 |
| Udp.UnpackExactly | lib/shadowsocks/src/udp/aead.rs:74-126 | for any packet: too short for the salt, for the 16-byte tag, not authentic, or by whether its plaintext starts with an address in the layout of RFC 1928 |
| Udp.RoundTrip | lib/shadowsocks/src/udp/aead.rs:38-126 | encrypting and decrypting in place gives payload and address back |
| Calendar.SecondsOrder | src/datetime.rs:87-143 | on valid dates the second count is ordered like year, month, day, hour, minute, second, and determines them |
| DateConversion.MarchDaysOfCycles | src/datetime.rs:94-122 | a year split into 400, 100, 4 and 1 year cycles starts after exactly the days of those cycles |
| DateConversion.FirstOfMarch | src/datetime.rs:80-122 | in closed form: the first of March of year 2000 + y is day 11017 + 365 y + y/4 - y/100 + y/400, for every y |
| DateConversion.LeapOfCycles | src/datetime.rs:101-117 | the capped quotients leave a 366th day exactly for leap years |
| DateConversion.SplitDays | src/datetime.rs:94-117 | the cycles and the rest add up to the day count, before and after 2000, and the rest is a day of that year |
| DateConversion.FindMonth | src/datetime.rs:124-128 | the month index stays within 0 to 11 and the rest is a day of that month |
| DateConversion.DateOfDays | src/datetime.rs:94-138 | the date is valid and its independent day number is the input |
| DateConversion.FromSystemTime | src/datetime.rs:61-144 | for every time within 2^63 - 1 seconds of the epoch, before it too, the result is a valid date and time whose second count and nanoseconds are exactly the input |
| DateConversion.ConversionOrder | src/datetime.rs:87-143 | valid dates are ordered, field by field down to the nanoseconds, like their nanosecond counts, and equal only for equal counts |
| DateConversion.ConvertBoth | src/datetime.rs:60-145 | two converted times are ordered like the times, and equal if and only if the times are |
| DurationPrint.FmtInt | src/serde/duration.rs:330-344 | writes the numeral right before the given end |
| Decimal.DigitsExactly | src/serde/duration.rs:330-344 | in a numeral, digit i from the right is 48 plus that digit of the number |
| Decimal.DigitsShortest | src/serde/duration.rs:330-344 | and it has no digit more than the number needs |
| DurationPrint.FmtFrac | src/serde/duration.rs:305-326 | writes the fraction without trailing zeros and returns the whole part |
| DurationPrint.Duration | src/serde/duration.rs:228-299 | prints the low 64 bits of any number of nanoseconds, in the text that `DurationForms` describes, always within the 32-byte buffer |
| DurationForms.PrintIsCanonical | src/serde/duration.rs:228-299 | every printed text is 0s, or a number from 1 to 999 with ns, us or ms below a second, or h, m and s with minutes and seconds below 60, without a leading zero unit or a zero at the end of the fraction |
| DurationForms.CanonicalUnique | src/serde/duration.rs:228-299 | and each text of that form is the printed text of its own value, so it is the only one |
| DurationParse.ScanInt | src/serde/duration.rs:47-66 | the numeral at the front, refused or overflowing exactly for the stated values |
| DurationParse.ScanFraction | src/serde/duration.rs:71-103 | the digits kept, their power of ten and the rest |
| DurationParse.ScanComponent | src/serde/duration.rs:137-216 | one number with optional fraction and unit, each error for its cause, as the laws of `DurationUnits` spell out |
| DurationParse.ParseDuration | src/serde/duration.rs:109-222 | sign, lone zero, and the sum of the components, as the laws of `DurationUnits` and `DurationLaws` spell out |
| DurationUnits.UnitsExactly | src/serde/duration.rs:171-203 | the ten spellings, as bytes, and no others are units |
| DurationUnits.WholeUnits | src/serde/duration.rs:137-221 | for each spelling and every number below the limit, the text of both is worth that number times the nanoseconds of the unit, or is refused when this does not fit 64 bits |
| DurationUnits.FractionUnits | src/serde/duration.rs:137-221 | the same with a fraction of any length: its digits are kept up to the first prefix above 922337203685477580, the rest is skipped, and kept digits above 9223372036854775759 overflow |
| DurationUnits.FractionAlone | src/serde/duration.rs:137-169 | the same without a number in front; a lone dot is refused |
| DurationUnits.LargeNumerals | src/serde/duration.rs:47-66 | a numeral above the limit overflows if and only if some of its first digits read from 18446744073709551568 to 18446744073709551619, and is a bad integer otherwise |
| DurationUnits.UnknownUnits | src/serde/duration.rs:171-203 | a number and any letters that are not a spelling: unknown unit |
| DurationUnits.NoUnits | src/serde/duration.rs:128-180 | a number alone: missing unit, but the lone zero is zero |
| DurationUnits.Signs | src/serde/duration.rs:109-135 | a minus sign and the empty text are refused; a plus sign is dropped in front of anything but a sign |
| DurationUnits.BadStart | src/serde/duration.rs:137-146 | so is a text that starts with neither a digit, a dot nor a sign |
| DurationLaws.ParseAdditive | src/serde/duration.rs:137-221 | two texts of components that parse (the second without a sign, neither the lone 0) parse together to the sum, or overflow when it does not fit |
| DurationLaws.ParseOfRender | src/serde/duration.rs:137-221 | whole-number components of any units in any order parse to the sum of value times unit |
| DurationLaws.OverflowingNumeral | src/serde/duration.rs:52-60 | every numeral within 48 of 2^64 overflows |
| DurationLaws.OverflowingFraction | src/serde/duration.rs:78-96 | every fraction whose digits, read as a number, lie from 2^63 - 48 to 2^63 + 1 overflows, whatever number is in front of it |
| DurationLaws.ParseOfPrint | src/serde/duration.rs:109-344 | parsing the printed text of any 64-bit duration gives it back |
| DurationLaws.PrintThenParse | src/serde/duration.rs:109-344 | through the two methods any duration comes back modulo 2^64, so it comes back if and only if it has 64 bits |
| Sniffing.Cursor.Advance | src/relay/thp/sniffing.rs:142 | moves by n, or panics exactly when fewer bytes remain |
| Sniffing.ReadNames | src/relay/thp/sniffing.rs:226-239 | the name loop terminates on every input and answers as the functional parser |
| Sniffing.ReadExtensions | src/relay/thp/sniffing.rs:215-240 | the extension loop terminates on every input and answers as the functional parser |
| Sniffing.TlsSni | src/relay/thp/sniffing.rs:130-241 | the whole sniffer answers as the functional parser on every input, errors and panics included; the `Anatomy` rows say what it answers |
| Anatomy.NameExactly | src/relay/thp/sniffing.rs:130-241 | for every input: the answer is a name if and only if the input starts with five bytes, the byte 1, 3 and 34 bytes, the three vectors, two bytes that are not both zero, extensions of other types than 0, type 0 with two lengths, triples that do not start with 0, and 0 with that name behind its length, in UTF-8 |
| Anatomy.InvalidExactly | src/relay/thp/sniffing.rs:238 | an invalid name is reported if and only if the input starts like that with a name that is not UTF-8 |
| Anatomy.MissingExactly | src/relay/thp/sniffing.rs:210-213 | missing extensions are reported if and only if the two bytes in front of them are zero |
| Anatomy.UnknownExactly | src/relay/thp/sniffing.rs:165-168 | an unknown protocol is reported if and only if there is a sixth byte and it is not 1 |
| Anatomy.HelloCut | src/relay/thp/sniffing.rs:130-241 | wherever an input ends before the end of its name, the field it ends in decides between a panic (what is skipped, lengths and types of one byte) and the end of input (the other lengths, extension types, the name) |
| Anatomy.OtherMessages | src/relay/thp/sniffing.rs:165-168 | every record with a handshake message of another type than 1 is an unknown protocol, as a whole and at every peek |
| Anatomy.PeekUnknown | src/relay/thp/sniffing.rs:51-64 | a peek reports an unknown protocol if and only if at most five bytes have arrived or the sixth is not 1 |
| Sniffing.SniOfPrefix | src/relay/thp/sniffing.rs:130-241 | for every well-formed ClientHello up to the end of its host name, with any extensions and any entries that can be skipped in front of it and followed by anything, the answer is exactly that name if it is UTF-8 |
| Sniffing.SniOfRecord | src/relay/thp/sniffing.rs:130-241 | the same for the whole record with any further names, extensions and records |
| Sniffing.SkippableExactly | src/relay/thp/sniffing.rs:226-239 | an entry of another type leaves every one-letter host name behind it readable if and only if its data is made of groups of three bytes that do not start with zero |
| Sniffing.OtherEntryMisread | src/relay/thp/sniffing.rs:226-239 | an entry of another type with one zero byte of data makes the answer the empty name, for every record with a host name below 256 bytes |
| Sniffing.SniOfPeek | src/relay/thp/sniffing.rs:51-64 | for every part of a well-formed ClientHello and what follows it that has arrived, one peek gives the host name if and only if it is UTF-8 and has arrived to its end within 1024 bytes (host names that are not empty and have no zero byte) |
| Sniffing.PeekEnough | src/relay/thp/sniffing.rs:51-64 | for every host name, once it has arrived to its end within 1024 bytes, one peek gives it, or reports that it is not UTF-8 |
| Sniffing.PeekTooEarly | src/relay/thp/sniffing.rs:51-64 | with only part of the host name arrived, the answer is that part filled up with zero bytes |
| Sniffing.PeekGivesWrongName | src/relay/thp/sniffing.rs:51-64 | so for an ASCII host name it is a wrong name and no error, at every point inside the host name |
| Sniffing.SniOfBare | src/relay/thp/sniffing.rs:130-241 | in a record without a server name the sniffer reads on behind the last extension; without any extension it reports that |
| Sniffing.PeekOfBare | src/relay/thp/sniffing.rs:51-64 | peeking at a whole record with extensions but no server name gives a name, the empty one, if and only if nine bytes of the buffer are left |
| Sniffing.PeekOfBarest | src/relay/thp/sniffing.rs:51-64 | peeking at a whole record without extensions reports that the name is missing |
| Sniffing.SniLocal | src/relay/thp/sniffing.rs:130-241 | any name found, in any input at all, is part of the input and depends on nothing behind it |
| Hashing.JumpHash | src/upstream/hash.rs:12-23 | the loop terminates and returns the last jump target below the bucket count, cast to 32 bits, or -1 without buckets |
| Hashing.BucketIsTarget | src/upstream/hash.rs:12-23 | the targets start at 0, the next one scales the last plus one by the top 31 bits of the t-th key plus one, and the bucket is the greatest of them below the bucket count |
| Hashing.KeyStep | src/upstream/hash.rs:17 | the t-th key is a^t key + (1 + a + ... + a^(t-1)) modulo 2^64 for a = 2862933555777941757 |
| Hashing.KnownBucketOfSeven | src/upstream/hash.rs:12-23 | with exact scaling key 1 is in bucket 6 of 7 |
| Hashing.BucketInRange | src/upstream/hash.rs:12-23 | the last jump target is a bucket |
| Hashing.BucketConsistent | src/upstream/hash.rs:12-23 | with more buckets a key stays where it was or moves to a new bucket |
| Upstream.Server.PushLatency | src/upstream/server.rs:73-84 | the history stays the last values pushed, and the server is alive if and only if the value is not zero |
| Upstream.RecentIsLastTen | src/upstream/server.rs:73-84 | what is kept of the values pushed is the last ten of them, in order, or all if there are fewer |
| Upstream.Server.Latency | src/upstream/server.rs:97-100 | the latency is the last value ever pushed |
| Upstream.Server.Alive | src/upstream/server.rs:62-66 | a server is alive if and only if the last value pushed is not zero |
| Upstream.Server.ReportFailure | src/upstream/server.rs:69-71 | a failure is a pushed zero, and the server is not alive after it |
| Upstream.Peers.Fallback | src/upstream/mod.rs:78-88 | the first server whose last pushed value is not zero, or the first server if there is none |
| Upstream.Peers.Best | src/upstream/mod.rs:44-51 | the stored best if alive, else the first alive; alive whenever any is |
| Upstream.Peers.ByEtld | src/upstream/mod.rs:53-76 | the first of five hashed tries that is alive, else the first alive; alive whenever any is |
| Upstream.Peers.StoreBest | src/upstream/mod.rs:115-130 | the stored index is the first of the lowest of the last values pushed, from 1 to 2^32 - 2, or 0 if there is none |
| Upstream.Peers.CheckOnce | src/upstream/mod.rs:99-139 | in whatever order the scores arrive, every server gets exactly its own, and then the best is the first index of the lowest score from 1 to 2^32 - 2, or 0 if there is none; an empty list is left alone |
| UpstreamProtocol.CheckKeeps | src/upstream/mod.rs:105-130 | one action of a check never reads an empty history and keeps its group in order; the best index changes only to the first lowest of the values the scan has read |
| UpstreamProtocol.ScanReads | src/upstream/mod.rs:115-130 | each step of a scan reads the last value pushed to the next server and changes no server |
| UpstreamProtocol.StepEffects | src/upstream/mod.rs:158-230 | what each step pushes to each server: the score to the one checked, a zero to the one reported, nothing else; publishing replaces the list by the loaded one, loading leaves it |
| UpstreamProtocol.StepKeeps | src/upstream/mod.rs:158-230 | every step of loading, checking, publishing, reporting and picking keeps the invariant |
| UpstreamProtocol.RunIsSafe | src/upstream/mod.rs:158-230 | in every state of every run each published server has one to ten entries, the last pushed, in order; the best index is valid, and behind a finished check the first lowest of the values it read; nothing panics if no empty list was loaded |
| UpstreamProtocol.EmptyListPanics | src/upstream/mod.rs:44-88 | with an empty list published every pick panics at its first access to a server |
| UpstreamProtocol.PickPanicsExactly | src/upstream/mod.rs:44-88 | in every state of every run a pick panics if and only if the published list is empty |
| UpstreamProtocol.EmptyListRun | src/upstream/mod.rs:158-230 | there is a run that loads and publishes an empty list and panics |
| RuleSet.EncodeTwice | src/dns/rule/trie/set.rs:33-36 | reversing the labels twice gives the rule back, so no two rules are stored alike |
| RuleSet.EncodeDotted | src/dns/rule/trie/set.rs:33-36 | a rule with a leading dot is stored as the reversed name with a trailing dot |
| RuleSet.Trie.Insert | src/dns/rule/trie/set.rs:33-36 | adds exactly the reversed rule |
| RuleSet.CountedLabels | src/dns/rule/trie/set.rs:38-44 | a lookup counts all labels, or all but a star in front |
| RuleSet.Trie.Contain | src/dns/rule/trie/set.rs:38-68 | true exactly for a full exact entry, or a wildcard entry at a run of labels without an exact one; for the name `*` alone only the wildcard entry |
| RuleSet.MatchesMeaning | src/dns/rule/trie/set.rs:38-68 | in terms of the rules: the name is listed, or a dotted rule covers it whose domain is not listed too |
| RuleSet.MatchesIntended | src/dns/rule/trie/set.rs:38-68 | the lookup answers as intended unless the name is not listed, some dotted rule covers it, and each one that does is listed without its dot too; then it never does |
| RuleSet.MatchesWithoutOverlap | src/dns/rule/trie/set.rs:38-68 | without a domain listed both ways, a name is found exactly for an exact rule or a dotted rule of it or a parent |
| RuleSet.ShadowedExample | src/dns/rule/trie/set.rs:46-54 | with both forms of foo.com listed, a.foo.com is not found |
| RuleSet.Lookup | src/dns/rule/trie/set.rs:33-68 | the same through building the set and looking up; a name with a star in front of other labels is answered as intended exactly when those labels are; the name `*` alone if and only if it is not listed exactly |
| Replay.PingPongBloom.constructor | lib/shadowsocks/src/security/replay/ppbloom.rs:13-28 | each of the two filters holds 5000 buffers and starts empty |
| Replay.PingPongBloom.CheckAndSet | lib/shadowsocks/src/security/replay/ppbloom.rs:35-62 | true exactly if a filter reports the buffer; otherwise it is recorded; the two filters hold exactly the latest accepted buffers and never more than their count |
| Replay.PingPongBloom.Switch | lib/shadowsocks/src/security/replay/ppbloom.rs:42-54 | when the current filter is full, clearing the other one and switching to it keeps the latest accepted buffers in place |
| Replay.PingPongBloom.WindowHeld | lib/shadowsocks/src/security/replay/ppbloom.rs:35-62 | each of the latest accepted buffers, as many as one filter holds, is reported |
| Replay.OnlyWindow | lib/shadowsocks/src/security/replay/ppbloom.rs:35-62 | what is reported beyond the content of two filters is a false positive |
| Replay.Process | lib/shadowsocks/src/security/replay/ppbloom.rs:35-62 | over every sequence of calls a replay is recognised unless a filter's worth of new buffers came in between |

## Left out

- AEAD-2022 (TCP, UDP and its ciphers): key, tag and nonce lengths are unfinished in the source.
- AES-GCM, HKDF and random salts: foreign libraries, parameters here.
- Raw pointers into `BytesMut` and its capacity: buffers are sequences, sealing and opening return the new bytes.
- Reader.DecryptedReader.PollReadDecrypted: polls after a decryption error are not modelled; the copy loop returns the error and never polls again.
- AddressCodec.WriteToBuf: domain names over 255 bytes are excluded; the source asserts that there are none.
- DateConversion.FromSystemTime: times beyond 2^63 - 1 seconds are excluded; the source asserts that there are none.
- CopyModel.CopyBuffer.PollCopy: the 64-bit width of the byte count is not modelled.
- Connection.Relayed: between the two comparisons of stalls the outcome depends on how the stalls interleave with the bytes, of which only the bounds are stated; sockets that refuse bytes are left to `Relay.Sender` and `Relay.Receive`, and the two halves of a socket have schedules of their own.
- Sockets.WriteSocket.PollWrite: a peer refuses bytes from the start or never.
- CopyModel and CopyBackModel: the source has one generic copy loop; its two uses are modelled separately, because Dafny's classes here share no interface.
- Hashing.JumpHash: bucket counts above 2^53 are excluded, because a double no longer holds every bucket number there.
- Hashing.BucketConsistent: bucket counts above 2^53 are excluded for the same reason, and it speaks of the bucket before the cast to 32 bits.
- Upstream.Peers.ByEtld: the host key is given (public suffix lookup and FNV hashing are not modelled), `key + 1` wraps, and lists of 2^31 servers and more are excluded here and in `UpstreamProtocol`.
- Sniffing.SniOfPeek: host names that are empty or hold a zero byte, which the zero fill can complete early, are excluded; `Sniffing.PeekEnough` and `Sniffing.PeekTooEarly` cover them.
- RuleSet.Lookup: labels that contain a dot are excluded, because rules cannot tell them from two labels; `RuleSet.Trie.Contain` covers them.
- Upstream: latency entries carry no timestamps.
- Plain HTTP host sniffing, date formatting, FNV hashing and cipher selection are not part of this model.
- The Bloom-filter rule set, the DNS cache and server, the cron parser, configuration, logging, the controller and socket options: libraries, unfinished code or input and output.
