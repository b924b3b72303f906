# Verification of shadowc

A Dafny 4.11 model of the four parts of shadowc that have logic of their own, and proofs about them. `dafny verify
dfyconfig.toml` checks the whole project.

**Domain names and DNS messages** (`lib/asyncdns.cpp`, `dns.c`; sections 3.1 and 4.1 of RFC 1035).
`DnsName` holds the two readings of a name: `Expand`, the label-by-label reading of section 4.1.4, and `Walk`, the
byte-by-byte loop that the code runs. `Decode` is the text the code returns, or `None` where the C++ has no defined
result. `DnsCodec` and `DnsEncode` are the buffer loops: the decompressor, the in-place label conversion, the
back-patching encoder and its two-index twin from `dns.c`. `DnsMessage` has the record parser and the wire form of
messages with names in full or compressed; `DnsParser` has the record loops; `DnsQuery` the query packet.

**The resolver** (`DNSResolver`). `Resolver` is the class with its two maps; callback invocations and sent packets
are appended to fields. `ResolverSpec` states what its methods do as steps over a history of registrations and
responses, and proves what holds after every history.

**The cryptor** (`lib/cryptor.cpp`). `Cfb` is CFB with 128-bit segments (section 6.3 of NIST SP 800-38A) as a byte
stream over any block function; `CryptorSpec` has sessions in arbitrary chunks; `Cryptor` has the cipher object and
the `Cryptor` class.

**Options** (`include/cxxopts.hpp`). `ArgSpec` is parsing as a function of the argument list, `Options` the classes
that do it in place over argv. `ArgTheorems` is what parsing promises over whole runs, `ArgFlags` what a run parses
by flags, from the way they are written. `WordWrap` is the help-text wrapper.

## What the proofs found

Places where the code does less than it is for, with the exact condition for all inputs and an input that shows it.

- `read_name` tests every byte, not only length octets, for the end mark and the pointer mark. It reads a name as
  section 4.1.4 means it exactly when all label bytes lie in 1..191 and the wire form fits its buffer
  (`DecodeMeetsRfc`, `HighByteMisread`).
- Nothing stops a pointer cycle (`PointerToItself`). The loop fails to end inside the packet exactly when the reader
  leaves the packet or comes back to a position it had before, and it ends, if at all, within as many tests as the
  packet has bytes (`EndsExactly`); pointers to strictly earlier runs are enough (`BackwardCollects`).
- The text of a name does not tell a dot inside a label from a dot between labels: encoding it again gives back the
  bytes it was read from exactly when no label holds a dot (`EncodeOfDecoded`).
- A host comes back from encoding and reading exactly when it survives: no empty part, so no trailing dot, parts under
  192 bytes, bytes in 1..191, at most 254 bytes (`NameRoundTrip`, `TrailingDotLost`).
- The C++ encoder skips a byte before its terminator. The name is terminated exactly when that byte was zero before
  (`CxxTerminates`, `UnterminatedName`), and a query carries the terminated name exactly then. It reads as the host
  then, and also when the skipped byte is 192 or more and forms, with the zero after it, a pointer to where a name is
  empty (`QueryCarriesName`, `UnterminatedYetRead`). `send_req` does not zero its buffer. The comment
  above the encoder promises the form that `dns.c` writes; the model follows the code.
- The callbacks called are those of the owner of the first A record. When an alias record leads from the host asked for
  to that owner, the host's own callbacks stay pending (`ResponseCalls`).
- A host loses its status at its first delivery and never gets it back, even when callbacks are pending again
  (`StatusMeansNeverCalled`, `PendingWithoutStatus`).
- The default loop visits names, so a container option holds its default once for each of its names
  (`DefaultPerName`, `DefaultTwice`).
- Positional arguments that nothing takes stay in argv before a `--` but disappear after it
  (`WordsAreConsumedOrKept`).
- The wrapper appends a range that ends before it starts exactly when a window without a space comes right after a
  soft break (`FinishesExactly`, `FailsOnLongWord`), and its lines may be twice as long as the width, plus one
  (`WrapIsGentle`, `BoundIsReached`).

## Model

| member | source | states |
|---|---|---|
| DnsName.FuelIsEnough | lib/asyncdns.cpp:69-88 | a walk that ends inside the packet never visits a position twice, so it ends within as many tests as the packet has bytes |
| DnsName.EndsExactly | lib/asyncdns.cpp:69-88 | the first loop ends inside the packet exactly when it does within that many tests, and the only ways not to are that the reader runs out of the packet or stands at one position twice |
| DnsName.PointerToItself | lib/asyncdns.cpp:71-76 | a pointer to itself is followed for ever |
| DnsName.BackwardCollects | lib/asyncdns.cpp:69-88 | if every pointer targets an offset below the start of the run being read, the loop ends inside the packet |
| DnsName.WalkOfExpand | lib/asyncdns.cpp:69-90 | where label bytes are plain, the loop collects exactly the wire form of the section 4.1.4 name |
| DnsName.DecodeMeetsRfc | lib/asyncdns.cpp:58-109 | the text returned is the dotted section 4.1.4 name if and only if all label bytes lie in 1..191 and the wire form is within 255 bytes |
| DnsName.DecodedText | lib/asyncdns.cpp:64-108 | any text returned has only bytes in 1..191, at most 254 of them, and no dot-free run of 192 |
| DnsName.HighByteMisread | lib/asyncdns.cpp:71-76 | a concrete name that is misread |
| DnsName.NameRoundTrip | lib/asyncdns.cpp:168-188 | an encoded host anywhere in a packet reads back as itself if and only if it survives |
| DnsName.TrailingDotLost | lib/asyncdns.cpp:168-188 | a concrete host that does not read back |
| DnsName.SplitOfJoin | lib/asyncdns.cpp:173-186 | splitting joined labels gives the labels back if and only if none holds a dot |
| DnsName.EncodeOfDecoded | lib/asyncdns.cpp:58-188 | the text of an uncompressed name encodes to the bytes it was read from if and only if no label holds a dot |
| DnsCodec.CollectName | lib/asyncdns.cpp:63-94 | the loop leaves the collected bytes NUL-terminated in the 256-byte buffer and counts the bytes the name occupies |
| DnsCodec.ShiftLabel | lib/asyncdns.cpp:99-105 | one round moves a label one place left, puts a dot after it and leaves the rest |
| DnsCodec.ConvertLabels | lib/asyncdns.cpp:97-107 | any concatenation of length-prefixed labels becomes the labels joined by dots, in place, with `strlen` recomputed every round |
| DnsCodec.ReadName | lib/asyncdns.cpp:58-109 | the whole of `read_name`, and of its twin in `dns.c`: the decoded text and the count |
| DnsEncode.EncodedBytes | lib/asyncdns.cpp:173-186 | each byte of the encoded host from the dots of the host: a length octet modulo 256 at the front and at every dot, else the byte before |
| DnsEncode.ChangeToDnsNameFormat | lib/asyncdns.cpp:168-188 | back-patching in one pass writes the encoded host, skips one byte, writes zero, and changes nothing else |
| DnsEncode.ChangetoDnsNameFormatC | dns.c:401-419 | the look-back encoder writes the encoded host and its terminator, changes nothing else, and leaves a dot appended to its input |
| DnsEncode.CxxTerminates | lib/asyncdns.cpp:186-187 | the C++ encoder terminates the name if and only if the skipped byte was zero |
| DnsEncode.UnterminatedName | lib/asyncdns.cpp:186-187 | a concrete buffer left unterminated |
| DnsEncode.EncodersAgree | dns.c:401-419 | for every host the two encoders leave the same buffer if and only if both bytes after the name were zero |
| DnsMessage.WireNameRoundTrip | lib/asyncdns.cpp:58-109 | a name in full, or its first labels and a pointer to a prior occurrence of the rest, is read as its text over exactly its own bytes |
| DnsMessage.RecordOctets | lib/asyncdns.cpp:134-151 | for any packet, which octets after an owner are type, class, time to live and length; after type octets `0 1` the rdata is the next `length` octets, after any other the decoded name |
| DnsMessage.ResponseOctets | lib/asyncdns.cpp:111-133 | answers are read from five octets after the question name's bytes, as many as the octet pair at 6 says |
| DnsMessage.ReplyOctets | dns.c:178-253 | the three sections have as many records as the octet pairs at 6, 8 and 10 say, and authority rdata is always text |
| DnsMessage.AnswerRoundTrip | lib/asyncdns.cpp:134-151 | a written record is parsed as its owner, type, class, time to live and rdata, over exactly its own bytes |
| DnsMessage.SectionRoundTrip | dns.c:189-253 | any list of records, compressed in any valid way, is parsed in order and the cursor ends at the end of the section |
| DnsMessage.MessageRoundTrip | dns.c:178-253 | parsing any valid message, whatever follows it in the buffer, gives the records of all three sections and ends at its length |
| DnsParser.ReadRecord | lib/asyncdns.cpp:134-151 | one round of a section loop computes the specified record and cursor |
| DnsParser.ReadAddress | lib/asyncdns.cpp:140-147 | the rdata copy and its terminator need one byte more than the rdata |
| DnsParser.ReadSection | dns.c:189-253 | the loop fills the array with the specified records and leaves the rest of it |
| DnsParser.ReadResponse | lib/asyncdns.cpp:111-154 | `parse_response` returns the answer section |
| DnsParser.ReadReply | dns.c:178-253 | the three loops fill the three arrays |
| DnsQuery.QueryCarriesName | lib/asyncdns.cpp:349-356 | a query carries the terminated name of a surviving host if and only if the skipped byte happened to be zero, and reads as that host if and only if that byte is zero or forms a pointer to an empty name |
| DnsQuery.UnterminatedYetRead | lib/asyncdns.cpp:349-356 | with a small id and a skipped byte of 192, the query lacks the terminated name and still reads as the host |
| DnsQuery.QueryLayout | lib/asyncdns.cpp:353-358 | the length sent is the index where the parser starts reading any reply that echoes the question |
| DnsQuery.QueryOctets | lib/asyncdns.cpp:325-358 | the query octet by octet: identifier, recursion desired, one question, no records, a terminated name, the type and class 1 |
| DnsQuery.BuildQuery | lib/asyncdns.cpp:325-358 | the packet laid out in a buffer of unknown contents: one question announced, the fixed octets around the name, and the encoded host between them when the host survives and the skipped byte was zero |
| ResolverSpec.DeliveryHistory | lib/asyncdns.cpp:220-323 | after every history a host's pending list is its registrations no later response delivers to, and its calls are the others, once each, in order, with the address of the first response after the registration |
| ResolverSpec.Conservation | lib/asyncdns.cpp:220-297 | calls made, then pending, are the registrations in order: none lost, repeated or reordered |
| ResolverSpec.StatusHistory | lib/asyncdns.cpp:224-296 | a host has a status, always 0, if and only if it was registered and nothing was delivered since its first registration; then all its registrations are pending; host entries never disappear |
| ResolverSpec.StatusMeansNeverCalled | lib/asyncdns.cpp:224-296 | a registered host has a status if and only if none of its callbacks was ever called |
| ResolverSpec.PendingWithoutStatus | lib/asyncdns.cpp:224-296 | after any history that delivered to a host, registering it again leaves a callback pending and no status |
| ResolverSpec.DuplicateReply | lib/asyncdns.cpp:284-297 | a second reply for the same owner changes nothing |
| ResolverSpec.ResponseCalls | lib/asyncdns.cpp:284-323 | the first answer of type 1, at whatever index, decides: everything pending for its owner is called in order with its first four bytes and cleared; no other host is touched |
| ResolverSpec.ResponseWithoutAddress | lib/asyncdns.cpp:299-323 | a response without an answer of type 1 changes nothing |
| ResolverSpec.PointedMessageFits | lib/asyncdns.cpp:299-323 | a reply to a query for any surviving host, answered by a pointer to offset 12, is one that the message round trip covers |
| ResolverSpec.EndToEnd | lib/asyncdns.cpp:299-323 | a reply that echoes the query for a host, with any readable records that are no A records and then an A record pointing at offset 12, calls each pending callback once with the host and the address, leaves none pending, and does not touch other hosts |
| Resolver.DnsResolver.Resolve | lib/asyncdns.cpp:220-235 | takes the registration step and sends the query, of type 1, to 8.8.4.4 and then 8.8.8.8 |
| Resolver.DnsResolver.SendReq | lib/asyncdns.cpp:325-369 | sends the same packet to 8.8.4.4 and then 8.8.8.8 |
| Resolver.DnsResolver.CallCallback | lib/asyncdns.cpp:284-297 | takes the delivery step |
| Resolver.DnsResolver.HandleData | lib/asyncdns.cpp:299-323 | parses a response and takes the response step |
| Cfb.DecryptOfEncrypt | lib/crypto/openssl_crypto.cpp:66-72 | decryption from the same register undoes encryption |
| Cfb.EncryptConcat | lib/crypto/openssl_crypto.cpp:66-72 | two updates give the stream of one |
| Cfb.EncryptIsStandard | lib/crypto/openssl_crypto.cpp:66-72 | the byte stream is the block-wise CFB of the standard |
| Cfb.DecryptIsStandard | lib/crypto/openssl_crypto.cpp:66-72 | each decrypted byte is the ciphertext byte combined with its place in the output block of the standard |
| CryptorSpec.Framing | lib/cryptor.cpp:82-100 | any sequence of `encrypt` calls puts out nothing, or the vector once and the stream of the concatenated plaintext, whatever the chunking |
| CryptorSpec.SentBytes | lib/cryptor.cpp:49-100 | byte by byte, all that a new sender puts out: the vector, then each plaintext byte combined with the block cipher's output for the previous 16 wire bytes under the key derived from password and method |
| CryptorSpec.ReceivedBytes | lib/cryptor.cpp:49-130 | byte by byte, all that a new receiver puts out for any bytes that arrive, in any pieces |
| CryptorSpec.PrefixRecovery | lib/cryptor.cpp:82-130 | at every moment of a session, under any chunking on both sides, the receiver has put out exactly the plaintext prefix that goes with what arrived |
| CryptorSpec.SessionRecovery | lib/cryptor.cpp:82-130 | once everything has arrived, the decrypted text is the plaintext |
| Cryptor.StreamCipher.Update | lib/crypto/openssl_crypto.cpp:66-72 | writes the stream for its data and advances the register |
| Cryptor.Cryptor.GetCipher | lib/cryptor.cpp:49-80 | makes a fresh cipher whose block function is the block cipher under the key derived from password and method; only an encrypting one sets the vector to send |
| Cryptor.Cryptor.constructor | lib/cryptor.cpp:14-24 | starts with nothing sent and nothing received |
| Cryptor.Cryptor.Encrypt | lib/cryptor.cpp:82-100 | puts out the specified bytes, takes the sender's step and leaves the receiving half alone |
| Cryptor.Cryptor.Decrypt | lib/cryptor.cpp:102-130 | puts out the specified bytes, takes the receiver's step and leaves the sending half alone |
| ArgTheorems.TokenForm | include/cxxopts.hpp:844-845 | an argument is classified as a cluster or a long option if and only if it has the written form of that flag, given by character codes |
| ArgTheorems.LongIsRead | include/cxxopts.hpp:844-845 | a long option written with or without a value is read as such |
| ArgFlags.FlagsAreParsed | include/cxxopts.hpp:1133-1217 | every run parses by flags exactly what is written, one event for each letter and each long option with the text it is given, up to the first option that is refused, and fails with that refusal; the events, the texts and the refusals follow from registrations and arguments alone |
| ArgTheorems.ConsumeTarget | include/cxxopts.hpp:1047-1079 | a positional argument goes unchanged to the first registered name at or after the cursor that is a container or was never parsed, and is refused if and only if there is none |
| ArgTheorems.WordsAreConsumedOrKept | include/cxxopts.hpp:1096-1243 | a first part of the positional arguments is parsed by position, in order; of the rest those before `--` are kept in order and those after it dropped, and there is a rest only once the cursor is at its end; which arguments are positional follows from the registrations alone |
| ArgTheorems.OutcomeIgnoresState | include/cxxopts.hpp:1105-1220 | whether and how a run fails depends on registrations and arguments only |
| ArgTheorems.PositionalRun | include/cxxopts.hpp:1047-1079 | over every run a non-container gets a positional only as its first value, hence at most one; after a container's first, all later ones go to it; the cursor only moves forward |
| ArgTheorems.ContainerTakesAll | include/cxxopts.hpp:1069-1073 | once the cursor is at a container, that option receives every later positional argument, before and after `--`, in order; nothing is kept and the cursor stays |
| ArgTheorems.OptionHolds | include/cxxopts.hpp:616-627 | after any run an option has been counted once per text parsed into it, an empty text standing for the implicit value if there is one; a container holds what it held, its default if it was never parsed before the default loop, then all its texts in order; any other option holds its last text, or else its default |
| ArgTheorems.DefaultPerName | include/cxxopts.hpp:1222-1230 | an option never parsed holds its default, a container one copy per name: one copy if and only if it has one name |
| ArgTheorems.DefaultTwice | include/cxxopts.hpp:1222-1230 | a concrete container with two names |
| Options.Options.ConsumePositional | include/cxxopts.hpp:1047-1079 | the loop over the positional names takes the specified step |
| Options.Options.CheckedParseArg | include/cxxopts.hpp:999-1032 | the look-ahead stays below argc and takes the specified step |
| Options.Options.ParseClusterArg | include/cxxopts.hpp:1138-1174 | a cluster moves the cursor at most once, on its last letter |
| Options.Options.ParseFlagArg | include/cxxopts.hpp:1133-1217 | the flag branch takes the specified step, and the cursor stays below argc |
| Options.Options.ApplyDefaults | include/cxxopts.hpp:1222-1230 | visiting the names in any order gives the specified defaults |
| Options.Options.ParseArguments | include/cxxopts.hpp:1099-1220 | the in-place loop computes the left-to-right parse of the original argv, keeps the same arguments and leaves argv from the kept ones on unchanged |
| Options.Options.Parse | include/cxxopts.hpp:1096-1243 | the whole of `parse` |
| WordWrap.FormatDescription | include/cxxopts.hpp:892-953 | the character loop prints the window-by-window layout of the description, followed by the default in parentheses if and only if there is one, or fails with it; a one-line text of short words can be read back from what is printed |
| WordWrap.NothingLost | include/cxxopts.hpp:915-950 | for every text and width, undoing the breaks gives back the text |
| WordWrap.FinishesExactly | include/cxxopts.hpp:922-940 | the wrapper fails if and only if a window without a space comes right after a soft break |
| WordWrap.FailsOnLongWord | include/cxxopts.hpp:932-938 | a concrete text on which it fails |
| WordWrap.WrapIsGentle | include/cxxopts.hpp:915-950 | with no run of non-spaces over the width, only spaces are replaced and no line exceeds twice the width plus one |
| WordWrap.BoundIsReached | include/cxxopts.hpp:922-940 | a text with a line of that length |
| WordWrap.WrapRoundTrip | include/cxxopts.hpp:915-950 | a one-line text of short words can be read back from its wrapped form |

## Left out

- Sockets, epoll, timers, logging and `/etc/resolv.conf`: received packets are byte sequences, sent ones a field.
- `lib/eventloop.cpp` and `lib/tcprelay.cpp`: a map lookup and stages without transitions.
- Malformed packets on which the C++ code reads or writes outside its buffers, or loops: the methods require `Decode`
  or `ParseSection` to have a result, which a caller could compute. The theorems over every history take such a packet
  as a step that changes nothing.
- Hosts over 109 bytes: their query can overflow the 128-byte buffer of `send_req` (`lib/asyncdns.cpp:327`), so
  `BuildQuery`, `SendReq` and `Resolve` exclude them.
- The bytes of `name` after a cut-short label: `read_name` would go on over uninitialised memory; `Decode` is `None`.
- Lengths 64 to 191, which RFC 1035 reserves, are taken as lengths, as the code does.
- Records whose rdata is not a single name, such as MX, SOA, TXT and AAAA: the parser reads their rdata as a name, so
  they are outside the round trip.
- `inet_ntoa` and the eight-byte read of rdata: an address is the first four rdata bytes, and a response whose first A
  record has fewer is outside `HandleData`.
- Re-entrant callbacks: a callback that calls `resolve` would change the list being iterated.
- AES, `EVP_BytesToKey`, the random vector and failed key derivation: the block function and key derivation are
  parameters, and so is the vector.
- `OpenSSLCrypto::update` calls `EVP_EncryptUpdate` in both directions (`lib/crypto/openssl_crypto.cpp:68`);
  `PrefixRecovery` and `SessionRecovery` assume that this decrypts in a context made for decryption.
- A first non-empty piece shorter than the vector: `decrypt` would read past it and pass on a negative length.
- `DnsParser.ReadAddress`: the source allocates one byte less than it writes; the model allocates the byte.
- `Options.Options.Parse`: option values are texts; conversion to other types, its errors and the exception texts are
  not modelled, nor are registration by `add_option`, the help listing around `format_description`, and Unicode.
- `Options.Options.ParseArguments`: the argument loop of `parse` is one function in the source; its rounds and loops
  are methods of their own here, as are the two loops of `read_name`.
