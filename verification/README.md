# wolfNanoTLS: a verified model of the TLS 1.3 shell

wolfNanoTLS is a small TLS 1.3 client and server over the `wc_*` primitives. This project models the
shell above those primitives in Dafny and proves what it is for: that two honest endpoints end with
mirrored keys and then deliver each other's data, whatever the transport does to the octets on the way;
that a stream which is cut is never taken for a complete one;
that no key and nonce are used twice; that encoders and decoders are inverse; and that the strict
certificate parser accepts exactly the certificates of its profile.

`dafny verify dfyconfig.toml` checks the whole project.

## How it is built

The primitives are a value `Crypto.Suite` of total functions. What is assumed of them is the predicate
`Suite.Laws()`: output sizes, opening inverts sealing, the key exchange commutes, a signature verifies
under its own key. A toy suite shows the laws are consistent, and `Witness` gives a pair of endpoints
for each of the two agreement theorems. Every result below holds for every suite
with these laws. Nothing is assumed about collisions or forgeries.

The transport is a pipe that hands over between one and as many octets as it likes, in order, and whose
sends succeed or fail as a list of outcomes says. The end of the list and of the input are failures, so
every loop that reads from the transport terminates on the remaining input.

Code that works in place is a class or a method over arrays: the writer and reader, the session, the
certificate record, the reassembly into a split scratch buffer, the in-place decryption, the two
partitions of the certificate client's buffer. Each such method is proved equal to a function of its
input and old state; the properties are then proved about these functions.

| files | what they hold |
|---|---|
| `Bytes`, `Crypto`, `Transport` | octets and big-endian numbers, the primitives, the byte channel |
| `Msg`, `Vectors` | sticky-error writer and reader, and nested length-prefixed vectors |
| `Record`, `RecordFormat`, `KeySchedule`, `RfcSchedule` | record framing, nonces, protection, key update; the same as RFC 8446 draws them |
| `SessionSpec`, `Session`, `SessionRuns`, `RecvLanguage` | the application session: specification, code, runs; which input delivers what |
| `Lockstep`, `PostHsLanguage`, `NonceUniqueness`, `KeyGenerations`, `Interop`, `EndOfStream` | whole-run properties of the session, and of two sessions joined |
| `ClientHelloSpec`, `ClientHello`, `HelloGrammar`, `HelloStructure`, `ClientHelloLanguage` | the ClientHello parser against a grammar, both directions, and exactly what is accepted |
| `PskHello`, `CertHello`, `WireFormat` | the two ClientHello builders and their round trips; every hello read back by a reader of its own |
| `ServerHello`, `ServerHelloBuild`, `ServerHelloRoundTrip`, `ServerHelloLanguage` | ServerHello, HelloRetryRequest, EncryptedExtensions |
| `Handshake`, `Reassembly`, `HandshakeKeys` | sending, reassembly, key derivation by role |
| `HelloRetry`, `HrrTranscript`, `ServerStart`, `ClientStart` | the parts both handshakes share, and the retry |
| `PskClientSpec`, `PskClient`, `PskServer`, `PskFlightRun`, `PskAgreement` | the PSK handshake, its flight, its agreement |
| `CertMessages`, `CertClientSpec`, `CertClient`, `CertServer`, `CertLanguage`, `FlightRun`, `CertAgreement`, `HonestRun` | the certificate handshake, its messages, its flight, its agreement |
| `ServerSafety`, `ClientSafety` | what stands behind every successful run of a server and of a client |
| `Der`, `X509Spec`, `X509`, `X509Grammar`, `X509RoundTrip`, `X509Converse`, `X509Meaning` | the certificate parser against a grammar, both directions, and what extensions mean |
| `CivilDate`, `CertTime`, `HostName`, `HostLabels`, `Chain`, `ChainExactly` | dates, validity, host names, the chain walk and exactly which chains it accepts |
| `Witness` | endpoints and a certificate that meet the hypotheses of the agreement theorems |

## Where the code is narrower than its design

Each of these is a theorem with the exact condition; the code is modelled as it is.

- A PSK client with an empty identity builds a ClientHello that its own server refuses, and one whose
  identity fills the 16-bit extension block is refused too: `PskHello.PskHelloRoundTrip`.
- With the same PSK and identity a handshake succeeds exactly if the identity is not empty, the
  ClientHello fits, and the server's random is not the HelloRetryRequest sentinel, which nothing excludes:
  `PskAgreement.PskAgreementExactly`. An identity that makes the record header truncate the length of the
  ClientHello is among the failures: `PskAgreement.TruncatedCosts`.
- A certificate handshake of one certificate succeeds under conditions that are exact as well, the
  retry sentinel among them: `CertAgreement.CertAgreementExactly`.
- The 64-bit record counter wraps without a check. No nonce is repeated exactly while no key generation
  seals more than 2^64 records: `NonceUniqueness.NonceNeverReused`.
- `wn_Write_LenEnd` truncates a length that does not fit its prefix and reports nothing. A tree of
  vectors is read back exactly if every content in it fits: `Vectors.ReadBackExactly`.
- The time parser admits a second of 60. The epoch keeps the order of all accepted times except that
  such a second and the start of the next minute coincide: `CertTime.EpochOrderExactly`.
- RFC 8446 section 5.1 lets a peer spread a post-handshake message over records; the session refuses
  such a record. It accepts exactly the records that hold whole messages: `PostHsLanguage.PostHsExactly`,
  `PostHsLanguage.FragmentRefused`.
- The PSK client bounds a record of the flight by what is left of its buffer before it is opened, so
  padding counts: `PskFlightRun.SplitExactly`, `PskFlightRun.OverlongRefused`.
- The servers do not look at the length field of the client's Finished: `ServerSafety.LengthIgnored`,
  `ServerSafety.FinishedUpToLength`.
- Both clients drop octets that stand behind Finished in its record: `FlightRun.DoneMeansComplete`,
  `PskFlightRun.DoneMeansComplete`.

## Model

| member | source | states |
|---|---|---|
| Interop.PskSessionsDeliver | src/wn_session.c:121-225 | From handshake to data: after every joint PSK handshake of honest endpoints, either session delivers, in order and unchanged, a prefix of the data submitted to the other, across any key updates, and all of it once every record is read |
| Interop.EndToEnd | src/wn_session.c:121-225 | The same for any two fresh sessions of which one reads with what the other writes with: one makes any sends and receives, the other, whose scratch buffer of any size holds the records sealed, reads its output in any calls; when all is read the reader's direction is the writer's again |
| Interop.CertSessionsDeliver | src/wn_session.c:121-225 | The same behind every joint certificate handshake of honest endpoints |
| Interop.SmallDataFits | src/wn_session.c:135-140 | A condition that can be checked before the run: if each datum and an update announcement fit the reader's scratch buffer, so does every record the writer seals, whatever the size of its own buffer |
| Interop.RunKeepsStreaming | src/wn_session.c:46-154 | Whatever a session sends and answers, with no failed send, its output is the record stream of a conforming peer whose data is exactly what was submitted, and its write direction is where that peer's writer is |
| EndOfStream.NoTruncation | src/wn_session.c:121-252 | No truncation: for two sessions of which one reads any front of what the other writes, cut at any octet, over any calls, closing calls too, the reader delivers a prefix of the data submitted, and if it is told of the end then the writer has closed, nothing was cut and everything is delivered |
| EndOfStream.ToldExactly | src/wn_session.c:156-225 | With more receive calls than records and replies that can be sent, the reader is told of the end if and only if the writer has closed while open and nothing was cut |
| EndOfStream.PskNoTruncation | src/wn_session.c:121-252 | The same behind every joint PSK handshake of honest endpoints, in either direction |
| EndOfStream.CertNoTruncation | src/wn_session.c:121-252 | The same behind every joint certificate handshake of honest endpoints |
| EndOfStream.RunToEnd | src/wn_session.c:121-252 | Against any peer, over any run of calls, the data delivered is that of the first records in order, and the end is reported only for a close_notify behind all records, with nothing behind it read |
| EndOfStream.RecvTowardsEnd | src/wn_session.c:180-222 | One receive call reports the close_notify, or the cut as an error, exactly if no data and no alert stands before it and the replies can be sent; otherwise it stops at the record stated and the end is still to come |
| EndOfStream.EnoughReceives | src/wn_session.c:156-225 | While replies can be sent, more receive calls than records are enough to be told of the close_notify |
| EndOfStream.ClosedIsSilent | src/wn_session.c:121-252 | A session that was told of the end or has closed delivers nothing, sends nothing and reads nothing, whatever is called |
| EndOfStream.WholeWire | src/wn_session.c:227-252 | What a session has put on the wire is the record stream of its data, with one close_notify behind it exactly if it was closed while open |
| RecvLanguage.DeliversExactly | src/wn_session.c:156-225 | For every input: a receive call delivers this data if and only if the session is open and the input is some records of whole post-handshake messages whose answers can be sent, and behind them one that opens, under the keys as they are by then, to this data as application data, and it fits the buffer |
| RecvLanguage.ClosesExactly | src/wn_session.c:206-214 | Likewise for the end of the stream: behind such records stands one that opens to an alert whose second octet is 0 |
| RecvLanguage.StepExactly | src/wn_session.c:186-220 | What a record that opens does, by its type: data, close_notify, another alert, or UNEXPECTED_MSG for any other type |
| RecvLanguage.StepRefuses | src/wn_session.c:180-190 | A ChangeCipherSpec is UNEXPECTED_MSG, and what is no record or does not open is reported as such, with the keys as they were |
| RecvLanguage.SendsExactly | src/wn_session.c:121-154 | A send succeeds if and only if the session is open, the data fits one record and the buffer, and the transport takes it; refusals change nothing |
| RecvLanguage.CloseErases | src/wn_session.c:227-254 | After closing every octet of both directions is zero; one close_notify of the octets 1, 0 goes out, and only from an open session |
| KeyGenerations.WriteKeysOverRuns | src/wn_session.c:46-75 | Over every run the write direction has the keys of the traffic secret after as many RFC 8446 section 7.2 updates as were announced, and every record was sealed with the IV of its generation |
| KeyGenerations.PeerKeys | src/wn_session.c:96-105 | A peer writes, and so by lockstep its reader reads, with the keys of the secret after as many updates as its records announce |
| Lockstep.RunInLockstep | src/wn_session.c:156-225 | Against any peer that sends data, alerts, tickets and key updates, requested or not, padded or not, as whole messages in its records, over every run of sends and receives with any send failures, the reader is where the peer's writer was after the records consumed, and the data delivered is exactly theirs in order |
| Lockstep.RecvInLockstep | src/wn_session.c:180-222 | One receive call consumes the stated number of peer records, stays in step even when it fails, and returns the data of the last one and no other |
| Lockstep.StepInLockstep | src/wn_session.c:180-222 | One record leaves secret, key, IV and counter of the reader equal to the peer's, also when the reply fails, the data does not fit or the peer alerts |
| Lockstep.RecvProgress | src/wn_session.c:156-225 | While a data record is left, replies can be sent and the buffer suffices, receiving succeeds with that record's data |
| Lockstep.PostHsOfPeer | src/wn_session.c:79-119 | A record of tickets with a final key update rotates the read keys once, and answers once if and only if an answer is requested |
| PostHsLanguage.PostHsExactly | src/wn_session.c:79-119 | The exact language: a post-handshake record is processed without an error if and only if it holds whole tickets and key updates, in any order, and the answers they ask for can be sent |
| PostHsLanguage.WholeHandled | src/wn_session.c:89-116 | Whole messages in front of anything take effect in order, up to an answer that cannot be sent |
| PostHsLanguage.CutRefused | src/wn_session.c:89-116 | A ticket or key update cut after any of its octets is refused as malformed and changes nothing |
| PostHsLanguage.FragmentRefused | src/wn_session.c:180-222 | So a receive call refuses the record in which a peer that spreads a message over records begins it (RFC 8446 section 5.1 allows that), after the whole messages in front have taken effect |
| Lockstep.OwnStreamReadable | src/wn_session.c:46-75 | Whatever the peer sends, as long as no send failed, a conforming reader of the session's output recovers exactly what it sealed, in order, across every update it announced |
| NonceUniqueness.NonceNeverReused | src/wn_session.c:46-254 | Over every run of send, receive and close, failed sends and failed replies included, a (key generation, nonce) pair repeats if and only if some generation sealed more than 2^64 records |
| NonceUniqueness.ReuseIffOverflow | src/wn_session.c:59-72 | A log of seals that counts up within a generation repeats a nonce exactly when a generation exceeds 2^64 entries |
| NonceUniqueness.RunKeeps | src/wn_session.c:121-254 | Every call keeps the log of seals chained, with nonces genuine for the generation, and the next seal continuing the chain |
| Session.Session.Send | src/wn_session.c:121-154 | Status, new state and wire effect of a send: refusals in the code's order, one sealed data record, counter advanced even if the transport fails |
| Session.Session.Recv | src/wn_session.c:156-225 | Status, returned data, new state and stream position of a receive are those of the specification whose lockstep is proved |
| Session.Session.RecvOne | src/wn_session.c:180-222 | One iteration of the receive loop is one specification step, and ends or continues as the step does |
| Session.Session.OpenRecord | src/wn_session.c:186-222 | Decrypting in place in the scratch buffer and dispatching on the inner type; a failed record leaves the state untouched |
| Session.Session.PostHs | src/wn_session.c:79-119 | The message loop of a post-handshake record processes its messages in order until one is refused |
| Session.Session.PostHsMessage | src/wn_session.c:89-116 | One message moves the reader past itself or is reported; termination on every input follows |
| Session.Session.SendKeyUpdate | src/wn_session.c:46-75 | The announcement is sealed under the old keys; keys rotate and the counter restarts only if it was sent |
| Session.Session.Close | src/wn_session.c:227-254 | close_notify goes out only from an open session, and the session is then wiped |
| Session.Session.Wipe | src/wn_session.c:249-251 | Every secret, key, IV, counter and flag is zero afterwards |
| KeySchedule.KeyUpdate | src/wn_keyschedule.c:174-201 | The three buffers hold the next generation of the direction (RFC 8446 section 7.2) |
| Record.RecvExact | src/wn_record.c:34-51 | Exactly n octets of the stream arrive however the transport chunks them, or the stream is exhausted |
| Record.RecvRecord | src/wn_record.c:53-80 | One record is read as the stream determines, whatever the chunking; length bounds and the ChangeCipherSpec body are checked |
| Record.RecordInReads | src/wn_record.c:53-80 | A well-formed record in front of anything is read whole and nothing behind it is touched |
| Record.BuildNonce | src/wn_record.c:82-90 | The mutating loop computes the IV masked by the right-aligned big-endian counter |
| Record.NonceInjective | src/wn_record.c:82-90 | For a fixed IV, equal nonces mean counters equal modulo 2^64 (RFC 8446 section 5.3) |
| Record.NonceAt | src/wn_record.c:82-90 | Octet by octet (RFC 8446 section 5.3): the first four octets of the IV stay, the others are masked by the counter's octets, most significant first |
| Record.NonceReadsAsCounter | src/wn_record.c:82-90 | The mask, removed again, reads as the counter |
| Bytes.XorBitAt | src/wn_record.c:88 | Masking sets exactly the bits in which the two octets differ |
| Record.Protect | src/wn_record.c:92-163 | The buffer holds the sealed record of content and type; oversized content is refused; nothing else changes |
| Record.Unprotect | src/wn_record.c:165-233 | In-place or not, content and type are what the record opens to; short, forged and all-padding records are refused |
| Record.StripPadding | src/wn_record.c:213-225 | The strip loop stops at the last non-zero octet |
| Record.UnsealSealed | src/wn_record.c:92-233 | Opening a protected record gives back content and type, whatever its padding |
| Record.SealedIn | src/wn_record.c:53-163 | A protected record is framed so that a receiver with room reads exactly it |
| RecordFormat.RecordExactly | src/wn_record.c:53-80 | For every input: a record is read if and only if one stands at its front, with a length of 1 to 16640 that fits the buffer, and a ChangeCipherSpec is one octet 1 |
| RecordFormat.NoRecordRefused | src/wn_record.c:53-80 | The status and what is consumed when it is not: cut, empty, too long, or a malformed ChangeCipherSpec |
| RecordFormat.NextRecordExactly | src/wn_connect.c:450-453 | Skipping ChangeCipherSpecs: the next record is the first of another type |
| RecordFormat.SealedFormat | src/wn_record.c:92-163 | Type 23, version 3.3, the length of the encrypted part, and this is content, type and zeros sealed with the record's own header as additional data (RFC 8446 section 5.2) |
| RecordFormat.UnsealedExactly | src/wn_record.c:165-233 | A record opens to a content and a type if and only if its encrypted part decrypts, with its header as additional data, to that content, the type, which is not zero, and zeros |
| RecordFormat.UnopenedRefused | src/wn_record.c:165-233 | The status when it does not: too short, not authentic, or nothing but zeros |
| RecordFormat.SentInOrder | src/wn_handshake.c:37-62 | Whatever the transport does, a front of the plaintext record goes out, and all of it exactly on success |
| Msg.Writer.PutU16 | src/wn_msg.c:48-58 | The octets are appended, or the error latches because they do not fit, and nothing outside the writer's region changes |
| Msg.Writer.PutU24 | src/wn_msg.c:60-71 | The same, for the low three octets of a number |
| Msg.Writer.PutBytes | src/wn_msg.c:73-84 | As above, for an octet string |
| Msg.Writer.LenStart | src/wn_msg.c:86-97 | Zero octets are reserved and the offset behind them returned |
| Msg.Writer.LenEnd | src/wn_msg.c:99-113 | The reserved octets become the big-endian content length, truncated to their width; nothing else changes |
| Msg.BeAt | src/wn_msg.c:104-111 | Octet i of a big-endian number is the number shifted and masked as the back-patching loop does |
| Msg.PatchedPrefix | src/wn_msg.c:99-113 | Patching turns reserved octets and content into a length-prefixed vector |
| Msg.Reader.GetU16 | src/wn_msg.c:138-151 | The cursor moves over two octets and gives their value, or the error latches and the value is 0 |
| Msg.Reader.GetBytes | src/wn_msg.c:170-183 | The cursor moves over n octets, or the error latches; once set it stays set |
| Vectors.WriteTree | src/wn_msg.c:37-113 | For every tree of nested vectors, the LenStart/LenEnd script appends exactly its specification encoding, and the error latches if and only if that exceeds the capacity |
| Vectors.ReadBack | src/wn_msg.c:123-183 | Reading an encoding whose contents fit their prefixes recovers the tree and leaves what follows |
| Vectors.ReadBackExactly | src/wn_msg.c:99-183 | The condition is exact: a tree of nested vectors is read back from what the script writes if and only if the content of every vector in it, however deep, fits its prefix |
| Vectors.ReadIsFit | src/wn_msg.c:123-183 | Whatever is read stood there encoded, with every content fitting its prefix |
| ClientHello.Parse | src/wn_clienthello.c:187-375 | Outcome and every returned slice are those of the grammar-level specification; all loops terminate and the 16-bit counters never wrap |
| ClientHello.ReadPrelude | src/wn_clienthello.c:206-249 | The fixed part is accepted exactly when header length, version, session id, even suite list, compression and extension block agree with the message |
| ClientHello.ReadSuites | src/wn_clienthello.c:225-235 | The 16-bit suite counter reaches zero because the length is even; the result says whether our suite is offered |
| ClientHello.ReadExtensions | src/wn_clienthello.c:250-359 | The extension loop, with its duplicate table, agrees with the specification on every input |
| ClientHello.ReadOneExtension | src/wn_clienthello.c:250-359 | One iteration: an extension that is cut short, a duplicate, behind pre_shared_key, beyond the table or with a bad body ends the loop with the error of the specification; any other moves the cursor and what is known one step along it |
| ClientHello.ReadExtension | src/wn_clienthello.c:270-359 | For an extension that the loop has not turned away, its body is accepted exactly if it is consumed exactly and well-formed, and then its type is entered in the table and what it says is recorded |
| ClientHello.KeyShareExt | src/wn_clienthello.c:264-279 | The client_shares loop finds the last entry of our group |
| ClientHello.GroupsExt | src/wn_clienthello.c:285-294 | The supported_groups loop finds our group |
| ClientHello.VersionsExt | src/wn_clienthello.c:295-303 | The supported_versions loop finds TLS 1.3 |
| ClientHello.PskExt | src/wn_clienthello.c:312-348 | Identities and binders are counted and must agree; first identity, first binder and the transcript cut are located |
| ClientHello.ReadIdentities | src/wn_clienthello.c:318-330 | The identities loop counts the entries in 16 bits without wrapping |
| ClientHello.ReadBinders | src/wn_clienthello.c:335-346 | The binders loop counts the entries in 16 bits without wrapping |
| HelloGrammar.ParseOfEncode | src/wn_clienthello.c:187-375 | Parsing the encoding of any well-formed ClientHello gives that message's verdict |
| HelloGrammar.ParserAcceptsExactly | src/wn_clienthello.c:187-375 | The parser accepts exactly the encodings of the messages whose verdict is to accept, with the same slices |
| ClientHelloLanguage.ServerAcceptsExactly | src/wn_clienthello.c:187-375 | The server accepts a message, with these slices, if and only if it encodes a ClientHello whose extensions are each of the form of their type, none twice, at most 40, pre_shared_key last, and that offers 0x1301, TLS 1.3 and x25519, with a share, if any, of 32 octets, and with a PSK a binder of 32 octets and psk_dhe_ke |
| ClientHelloLanguage.VerdictExactly | src/wn_clienthello.c:352-375 | Malformed extensions are DECODE, and a well-formed list that lacks something demanded is ILLEGAL_PARAM |
| ClientHelloLanguage.BodyExactly | src/wn_clienthello.c:264-352 | Each body is accepted exactly if it is of the form of its type, and what is taken from it is read off its octets |
| ClientHelloLanguage.ReturnedHolds | src/wn_clienthello.c:264-294 | The share returned is the key of the last x25519 entry, and the schemes are the list of signature_algorithms |
| HelloStructure.AcceptedStructure | src/wn_clienthello.c:250-372 | Whatever is accepted has at most 40 pairwise distinct extension types, each body consumed exactly, pre_shared_key last with one binder per identity, all slices inside, and binders filling the message from the cut to the end |
| PskHello.BuildPskHello | src/wn_connect.c:151-228 | The writer script produces exactly the specified ClientHello with a zero binder; cut and binder offset are 35 and 32 before the end |
| PskHello.PskHelloRoundTrip | src/wn_connect.c:151-228 | The server accepts the client's ClientHello exactly when the identity is not empty and leaves the extension block below 2^16 octets, and then recovers session id, share, identity, binder and cut at their positions |
| PskHello.PskHelloFields | src/wn_connect.c:151-228 | The recovered slices hold the client's session id, share, identity and binder, and the cut delimits the hashed part |
| PskHello.BinderPatch | src/wn_connect.c:388-398 | Writing the binder into its slot gives the message with that binder and leaves the hashed prefix as it was (RFC 8446 section 4.2.11.2) |
| WireFormat.PskHelloReads | src/wn_connect.c:151-228 | A reader of its own finds in the built message the random, session id and suite, and exactly the six extensions, octet by octet, for every identity the length fields can hold |
| ClientSafety.PskOfferReads | src/wn_connect.c:318-404 | The binder in it is the RFC 8446 section 4.2.11.2 MAC of the PSK over all but the last 35 octets |
| CertHello.BuildCertHello | src/wn_clienthello.c:47-162 | The certificate ClientHello, server name included, is written exactly; bad sizes and a short buffer are refused |
| CertHello.CertHelloRoundTrip | src/wn_clienthello.c:47-162 | The server accepts every built certificate ClientHello, with every field where it was written |
| CertHello.CertHelloFields | src/wn_clienthello.c:47-162 | The slices hold the session id, the share and the offered schemes |
| WireFormat.CertHelloReads | src/wn_clienthello.c:47-162 | A reader of its own finds in the built message the random, session id and suite, and exactly the server name, if there is one, and the four other extensions, octet by octet |
| ClientSafety.CertOfferReads | src/wn_connect.c:1476-1556 | For the client's own values: its share and the name that the caller asks for |
| CertHello.HasSigAlg | src/wn_clienthello.c:171-185 | The 16-bit scan answers whether the scheme is in the offered list |
| CertHello.OwnSchemes | src/wn_clienthello.c:112-140 | The client offers exactly the six schemes it can check |
| ServerHello.Parse | src/wn_serverhello.c:42-154 | The cursor loop with its seen flags agrees with the specification on every input; a HelloRetryRequest is recognised first |
| ServerHelloBuild.BuildServerHello | src/wn_serverhello.c:157-204 | The message is written exactly, or refused when it exceeds the buffer |
| ServerHelloBuild.BuildRetry | src/wn_serverhello.c:206-243 | The HelloRetryRequest is written, or refused when it does not fit; what it carries is `WireFormat.RetryReads` |
| WireFormat.RetryReads | src/wn_serverhello.c:206-243 | A reader of its own finds in the HelloRetryRequest the session id, the cipher, and exactly two extensions: version 3.4 and the selected group |
| WireFormat.ServerHelloReads | src/wn_serverhello.c:157-204 | And in the ServerHello the random, the session id, the cipher, version 3.4, group and share, and the selected identity if there is one |
| ServerHelloBuild.BuildEncExt | src/wn_serverhello.c:245-267 | An empty EncryptedExtensions is written exactly, or refused |
| ServerHelloRoundTrip.ServerHelloRoundTrip | src/wn_serverhello.c:42-204 | Build then parse recovers cipher, group, share, version and PSK choice, or the retry flag when the random is the sentinel |
| ServerHelloRoundTrip.ServerHelloSlices | src/wn_serverhello.c:42-204 | The parsed slices hold the echoed session id and the server's share |
| ServerHelloRoundTrip.RetryRoundTrip | src/wn_serverhello.c:206-243 | A built HelloRetryRequest is recognised as one, whatever it carries |
| ServerHelloLanguage.ShParserExactly | src/wn_serverhello.c:42-155 | For every input: a ServerHello is decoded, to these fields, if and only if it is of version 3.3 without compression, its random is not the retry sentinel, and its extensions are proper versions, identities and shares, none twice and no others |
| ServerHelloLanguage.RetryExactly | src/wn_serverhello.c:77-99 | A retry is recognised by type and random alone |
| ServerHelloRoundTrip.CheckEncExt | src/wn_connect.c:77-110 | The extension loop terminates on every input with the specified verdict |
| ServerHelloRoundTrip.EeAcceptsOnlyOffered | src/wn_connect.c:77-110 | An extension list is accepted if and only if each entry is supported_groups, or an empty server_name that was offered |
| ServerHelloRoundTrip.EncExtRoundTrip | src/wn_serverhello.c:245-267 | What the server builds passes the client's check |
| Handshake.SendPlainRecord | src/wn_handshake.c:37-62 | Header and body are two sends; a failed header suppresses the body |
| Handshake.RecvHandshake | src/wn_handshake.c:71-122 | Reassembly into the lower region gives the message the stream determines, or its error, and disturbs nothing outside |
| Reassembly.ReassemblyIsExact | src/wn_handshake.c:71-122 | A message is returned, leaving `rest`, if and only if the input is `rest` behind some split of it into non-empty records that fit, with any ChangeCipherSpecs between them (RFC 8446 section 5.1) |
| Reassembly.GatherOfOne | src/wn_handshake.c:71-122 | A message sent as one record that fits is received |
| Reassembly.GatherCosts | src/wn_handshake.c:71-122 | Reassembly takes five octets of header for at most 16640 of the message, and returns a message that starts with what had arrived and has the length its front tells |
| HandshakeKeys.SessionEstablish | src/wn_handshake.c:145-197 | The session's secrets, keys, IVs, counters and flags become those of its role |
| HandshakeKeys.RolesMirror | src/wn_handshake.c:145-197 | Client and server over the same secret and transcript read each other's writing, counters at 0 |
| RfcSchedule.HandshakeStage | src/wn_handshake.c:124-143 | Handshake secret and both handshake directions are those of RFC 8446 section 7.1, drawn as a chain of extractions with the labels c hs traffic and s hs traffic |
| RfcSchedule.ApplicationStage | src/wn_handshake.c:145-197 | And the application directions: a client writes under c ap traffic, a server under s ap traffic |
| RfcSchedule.UpdatedNext | src/wn_keyschedule.c:174-201 | A key update takes the direction from one generation of the secret to the next |
| HelloRetry.AcceptMaybeHrr | src/wn_accept.c:65-117 | With a key share nothing happens; without one a retry is sent, the transcript takes the hash message and the retry, and a second ClientHello must carry a share |
| HelloRetry.RecvClientHello | src/wn_accept.c:155-163 | The ClientHello is reassembled in the lower half of the scratch buffer and decoded there |
| ServerStart.OfferInside | src/wn_accept.c:172-201 | Every slice the servers use lies in the ClientHello, and the binder has 32 octets |
| ServerStart.AnswerHello | src/wn_accept.c:203-242 | Key exchange, ServerHello, the ChangeCipherSpec unless a retry had one, and handshake keys over the transcript so far |
| ServerStart.RecvFinished | src/wn_accept.c:282-316 | The client Finished is awaited past ChangeCipherSpecs, bounded, opened and compared with the MAC over the transcript |
| PskServer.CheckBinder | src/wn_accept.c:179-201 | The binder is verified over the transcript up to the cut; the two updates cover the ClientHello exactly once |
| PskServer.AcceptPsk | src/wn_accept.c:119-339 | The server computes its specification; a failure leaves the session wiped |
| ServerSafety.PskServerSafety | src/wn_accept.c:119-339 | Every successful run: the identity is the server's, the binder is the MAC of the PSK over the ClientHello up to the cut, the next record opens under the client's handshake key to a Finished over the whole transcript, and output and session keys are those of the key schedule over it |
| ServerSafety.AwaitExactly | src/wn_accept.c:282-316 | A server is content with the client if and only if the next record past any ChangeCipherSpecs opens to a Finished with the right MAC |
| ServerSafety.WrongMacRefused | src/wn_accept.c:310-313 | Any other MAC is BAD_MAC |
| ServerSafety.LengthIgnored | src/wn_accept.c:304-309 | The three length octets of that Finished may say anything |
| ServerSafety.FinishedUpToLength | src/wn_accept.c:304-313 | So what is accepted is the Finished message if and only if these are 0, 0, 32 |
| ServerSafety.OfferRefused | src/wn_accept.c:172-197 | No PSK or another identity is ILLEGAL_PARAM, a wrong binder BAD_MAC |
| ServerSafety.AnswerSelects | src/wn_accept.c:214-236 | The ServerHello echoes the session id and selects 0x1301, TLS 1.3, x25519 with the server's share, and the PSK |
| ServerSafety.RetrySelects | src/wn_accept.c:65-117 | The retry on the wire echoes the first ClientHello's session id and selects 0x1301 and x25519; the transcript then starts with the hash of that ClientHello and this retry |
| HrrTranscript.GreetPrologue | src/wn_accept.c:65-117 | At most one retry, and only for a ClientHello without a key share; the transcript prefix is then message_hash(ClientHello1) and the retry |
| HrrTranscript.AnswerOpening | src/wn_accept.c:164-235 | Exactly one ChangeCipherSpec has been sent once keys are exchanged, right behind the first server message |
| HrrTranscript.PskServerTranscript | src/wn_accept.c:155-316 | In every successful PSK server run the binder covers the ClientHello up to the cut, behind hash message and retry if there was one, and the whole output is the opening and one protected record (RFC 8446 sections 4.1.4 and 4.4.1) |
| HrrTranscript.CertServerTranscript | src/wn_accept.c:395-559 | In every successful certificate server run the signature covers everything from the (possibly synthetic) ClientHello through Certificate, and the whole output is the opening and one protected record |
| ClientStart.RecvServerHello | src/wn_connect.c:406-446 | The ServerHello must echo the session id and select exactly what was offered; a retry is refused as unsupported |
| ServerHelloLanguage.NegotiatedExactly | src/wn_connect.c:417-434 | The answer to every message: a retry is UNSUPPORTED, what is no ServerHello INVALID_ARG, and one that does not select 0x1301, TLS 1.3, x25519 with 32 octets, the offered PSK or none, and the client's session id is ILLEGAL_PARAM |
| ServerHelloLanguage.KeyedExactly | src/wn_connect.c:406-446 | The client has keys if and only if the first record past any ChangeCipherSpecs brings such a ServerHello and the key exchange succeeds; the transcript is its hello and this message |
| ServerHelloLanguage.UnofferedRefused | src/wn_connect.c:425-434 | A ServerHello that misses one of these is answered with ILLEGAL_PARAM |
| PskClient.SendHello | src/wn_connect.c:374-404 | The ClientHello is built, its binder written over the hashed prefix, and sent with one ChangeCipherSpec |
| PskClient.RecvFlight | src/wn_connect.c:448-530 | The flight loop reassembles EncryptedExtensions and Finished from any records, without overrunning its 512 octets |
| PskClient.ConnectPsk | src/wn_connect.c:318-579 | The client computes its specification; a failure leaves the session wiped |
| ClientSafety.PskClientSafety | src/wn_connect.c:318-579 | Every successful run: the ServerHello selects what was offered, nothing that was not offered stands in EncryptedExtensions, the server's Finished covers the transcript before it, and output and session keys are those of the key schedule |
| PskAgreement.HonestPskAgreement | src/wn_connect.c:318-579 | Honest PSK agreement: a joint run over an in-order channel exists and is unique, both sides succeed for any chunking, and each one's write secret, key and IV are the other's read ones, counters at 0 |
| PskAgreement.PskAgreementExactly | src/wn_accept.c:119-339 | The conditions are exact: with the same PSK and identity, a joint run ends mirrored if and only if the identity is not empty, the ClientHello fits the buffers and a record, and the server random is not the retry sentinel, for every identity the client accepts |
| PskAgreement.EmptyIdentityFails | src/wn_clienthello.c:319-330 | A client with an empty identity is refused as malformed |
| PskAgreement.SentinelFails | src/wn_connect.c:419-421 | A server random equal to the retry sentinel makes the client give up |
| PskAgreement.TooLongFails | src/wn_handshake.c:71-122 | A ClientHello too long for the server's buffers or a record never leads to a session; where the record header truncates its length, this holds whenever the message exceeds the half buffer or fewer than 78 octets follow it |
| PskAgreement.TruncatedCosts | src/wn_handshake.c:71-122 | A ClientHello whose length the header truncates is reassembled, if at all, only by taking 20 octets or more of what follows it |
| PskAgreement.SuccessLeaves | src/wn_accept.c:119-339 | A server that succeeds, with a retry or without, had the 58 octets of a Finished record behind the first ClientHello |
| CertMessages.BuildServerCert | src/wn_servercert.c:50-82 | Three nested lengths are back-patched so that the buffer holds exactly the Certificate message, or it is refused |
| CertMessages.SignCertVerify | src/wn_servercert.c:377-423 | The signature over the RFC 8446 section 4.4.3 content is framed in place; a failed or overlong signature is refused |
| CertMessages.ReadCertList | src/wn_connect.c:1654-1684 | The chain loop accepts an empty context and an exactly filled list of at most the chain limit, and returns its certificates |
| CertMessages.ReadCertVerify | src/wn_connect.c:1696-1709 | Scheme and signature must span the message |
| CertMessages.CertRoundTrip | src/wn_servercert.c:50-82 | What the server writes the client reads as the chain of that one certificate |
| CertMessages.CvRoundTrip | src/wn_servercert.c:377-423 | Scheme and signature are read back as written |
| CertLanguage.CertListExactly | src/wn_connect.c:1654-1684 | A body is read as this chain if and only if it is an empty context and a list of at most four entries, each a certificate with any extensions, that fills it |
| CertLanguage.CvExactly | src/wn_connect.c:1696-1709 | A body is read as this scheme and signature if and only if it is their encoding |
| CertLanguage.CertMsgIs | src/wn_servercert.c:50-82 | The octets of the server's Certificate |
| CertLanguage.CvMsgIs | src/wn_servercert.c:377-423 | And of its CertificateVerify |
| CertLanguage.SignedContentIs | src/wn_servercert.c:85-96 | 64 spaces, the text TLS 1.3, server CertificateVerify, a zero octet and the transcript hash (RFC 8446 section 4.4.3) |
| CertMessages.FlightOrder | src/wn_flight.h:42-77 | The three flags advance, or the message is refused with the code's status |
| CertMessages.OrderStep | src/wn_flight.h:42-77 | In a reachable state exactly the next message of the flight is admitted |
| CertLanguage.OrderRefuses | src/wn_flight.h:42-77 | Out of order, a CertificateRequest is UNSUPPORTED and everything else UNEXPECTED_MSG |
| CertMessages.OrderAcceptsFlight | src/wn_flight.h:42-77 | Message types without Finished are admitted if and only if they start the flight in order |
| CertClient.Decrypt | src/wn_connect.c:1611-1622 | Decrypting a record in the I/O region leaves the accumulated messages, and so the certificate slices, as they were |
| CertClient.TakeMessage | src/wn_connect.c:1638-1726 | One message: order gate, transcript hash before it, its own check, and what it contributes |
| CertClient.ParseFlight | src/wn_connect.c:1629-1728 | Complete messages are taken out of the accumulator in order; a partial one waits |
| CertClient.ConnectCert | src/wn_connect.c:1476-1786 | The client computes its specification; a failure leaves the session wiped |
| ClientSafety.CertClientSafety | src/wn_connect.c:1476-1786 | Every successful run: the same, with the chain verified, and the signature over the transcript through Certificate verified under the leaf key |
| ClientSafety.CertClientAuthenticates | src/wn_connect.c:1359-1786 | And whatever it was sent, the chain leads to the anchor and its leaf may serve under the name or the pinned key that the caller asked for |
| CertServer.BuildPrefix | src/wn_accept.c:462-498 | EncryptedExtensions, Certificate and CertificateVerify lie contiguously in the lower half, signed over the transcript through Certificate |
| CertServer.AcceptCert | src/wn_accept.c:356-581 | The server computes its specification; a failure leaves the session wiped |
| ServerSafety.CertServerSafety | src/wn_accept.c:356-581 | Every successful run: the scheme was offered, the signature is over the transcript through Certificate, the client's Finished covers the whole transcript, and output and session keys are those of the key schedule over it |
| ServerSafety.SchemeRefused | src/wn_accept.c:409-412 | A scheme that was not offered is ILLEGAL_PARAM |
| FlightRun.DoneMeansComplete | src/wn_connect.c:1602-1761 | Whatever is received, the client is done only after exactly EncryptedExtensions, Certificate, CertificateVerify, Finished: the chain was verified, the signature covers the hellos through Certificate, the MAC through CertificateVerify, and the final transcript through Finished; these four messages are the front of what the consumed records carried, and what stands behind them is dropped |
| FlightRun.AnySplit | src/wn_connect.c:1602-1729 | The division of the flight into records, their padding and any ChangeCipherSpecs do not change the result, success or failure |
| FlightRun.MessagesOfMore | src/wn_connect.c:1629-1728 | Reading the accumulator in two goes gives what reading it at once gives |
| PskFlightRun.DoneMeansComplete | src/wn_connect.c:448-530 | Whatever is received, the PSK client is done only after exactly an acceptable EncryptedExtensions and a Finished over the transcript through it, the front of what the consumed records carried |
| PskFlightRun.AnySplit | src/wn_connect.c:448-530 | The division of the PSK flight into records does not change the result as long as each record, padding included, fits behind what precedes it |
| PskFlightRun.OverlongRefused | src/wn_connect.c:457-462 | The condition is needed: a record whose padding exceeds what is left of the reassembly buffer is refused unread, whatever it carries |
| PskFlightRun.SplitExactly | src/wn_connect.c:448-530 | The condition is exact: a complete flight, divided into records none of which is superfluous, is accepted if and only if each record, padding included, fits behind what precedes it |
| CertAgreement.HonestCertAgreement | src/wn_connect.c:1476-1786 | Honest certificate agreement: a joint run exists and is unique, both sides succeed, signer and verifier hash the same transcript, and the sessions end mirrored with counters at 0 |
| CertAgreement.CertAgreementExactly | src/wn_accept.c:356-581 | The conditions are exact: a joint run ends mirrored if and only if the client can name the server and offers its scheme, the server random is not the retry sentinel, the server can sign, its chain is accepted with a leaf key under which the signature verifies, and the flight fits the buffers and one record |
| CertAgreement.CertifiedIsTrusted | src/wn_connect.c:1602-1729 | If the accepted leaf key is the server's own, the signature verifies under it |
| CertAgreement.ServerRefuses | src/wn_accept.c:356-581 | A server whose scheme is not offered, that cannot sign, or whose flight does not fit its buffer or one record fails |
| CertAgreement.ClientRefuses | src/wn_connect.c:1476-1786 | A client fails on a flight that it does not trust or that does not fit its regions, and on the retry sentinel |
| CertAgreement.AnyDivisionAccepted | src/wn_connect.c:1602-1729 | The client accepts the honest flight however it is divided, padded and interleaved with ChangeCipherSpecs |
| CertAgreement.ServerCompletes | src/wn_accept.c:356-581 | Given the client's flights the server succeeds, sends exactly its own and mirrors the client's keys |
| Der.GetLength | src/wn_x509.c:114-164 | The length reader accepts short and one- to three-octet long forms only, minimal, below 2^24 |
| Der.LengthExactly | src/wn_x509.c:114-164 | A length is read if and only if the octets are the shortest-form encoding of a number below 2^24 (X.690 section 10.1) |
| Der.GetHeader | src/wn_x509.c:169-195 | Tag and length are read within the parent, or refused |
| Der.HeaderExactly | src/wn_x509.c:169-195 | A header is read if and only if a tag-length-value of that tag stands there and fits its parent |
| Der.GetHeaderExact | src/wn_x509.c:200-209 | The value must fill its parent exactly |
| Der.GetBitString | src/wn_x509.c:214-233 | A BIT STRING with no unused bits yields its content slice |
| X509.X509Cert.Parse | src/wn_x509.c:876-1086 | Status and every field are those of the specification, on every input; on failure the record is cleared |
| X509.X509Cert.ParseExtensions | src/wn_x509.c:724-874 | Unique identifiers, version, wrapper and list of extensions, into the fields in place |
| X509.X509Cert.ParseExtensionList | src/wn_x509.c:781-870 | The extension loop is the specification's walk, on every input |
| X509.X509Cert.ExtBasicConstraints | src/wn_x509.c:536-586 | CA flag and optional path length, DER-strict |
| X509.X509Cert.ExtKeyUsage | src/wn_x509.c:589-621 | Usage bits, with zero unused bits checked and an empty set refused |
| X509.X509Cert.ExtExtKeyUsage | src/wn_x509.c:624-662 | The purposes loop records serverAuth and anyExtendedKeyUsage |
| X509.X509Cert.ExtAltName | src/wn_x509.c:667-717 | The names loop keeps the first dNSNames, refusing an empty, overlong or NUL-bearing one |
| X509.X509Cert.FindCN | src/wn_x509.c:480-531 | The nested search returns the first acceptable commonName, malformed parts ending the search where they stand |
| X509.X509Cert.ParseAlgIdOids | src/wn_x509.c:323-360 | Key algorithm and curve, with the parameters each algorithm requires |
| X509.X509Cert.GetTime | src/wn_x509.c:447-475 | One UTCTime or GeneralizedTime as a whole element |
| X509RoundTrip.ParsePrint | src/wn_x509.c:876-1086 | On the encoding of every certificate of the profile below 2^24 octets, with any extension list, the parser reports what the fold over the list reports, and otherwise recovers tbs, SPKI, key, tags, times, signature, common name and exactly that fold |
| X509RoundTrip.ListIsFold | src/wn_x509.c:781-870 | The pass over the encoded extension list is the fold over the abstract one |
| X509Meaning.ExtensionsMean | src/wn_x509.c:536-870 | Which extension lists are accepted, and what each field then is, said of the list as a whole: no recognised kind twice, no unknown critical one, no empty list, host names without zero octets; CA flag, usage, purposes and the first sixteen names are those of the one extension of their kind |
| X509Meaning.UsageBits | src/wn_x509.c:589-621 | The two bits asked for later are digitalSignature (0) and keyCertSign (5) of the BIT STRING |
| X509RoundTrip.ApplyIsLearn | src/wn_x509.c:818-868 | Acting on one framed extension does what the extension means, duplicates and unknown critical ones included |
| X509RoundTrip.CnRead | src/wn_x509.c:480-531 | The search over an encoded distinguished name finds its first acceptable commonName |
| X509RoundTrip.Containment | src/wn_x509.c:906-1080 | In every accepted certificate the key lies in the SPKI, the SPKI and the times in the tbs, and the signature behind the tbs, ending with the input |
| X509RoundTrip.PrefixFree | src/wn_x509.c:876-929 | No accepted input is a proper prefix of another |
| X509Converse.AcceptedIsEncoding | src/wn_x509.c:876-1086 | Every accepted input is the encoding of a certificate of the profile |
| X509Converse.ParserAcceptsExactly | src/wn_x509.c:876-1086 | Below 2^24 octets the parser accepts exactly the encodings of the certificates of the profile whose extension list folds to a summary |
| CivilDate.CivilCountsDays | src/wn_x509.c:1428-1443 | The closed civil-date formula equals day counting by recursion over years and months, for every Gregorian date from year 0 on |
| CivilDate.ConsecutiveDates | src/wn_x509.c:1428-1451 | Consecutive dates differ by 1 and 1970-01-01 is day 0 (RFC 5280 section 4.1.2.5) |
| CivilDate.EraIsFloor | src/wn_x509.c:1438-1439 | The truncating division with its correction is the floor, so the year of the era is in 0..399, negative years included |
| CivilDate.IntermediatesInRange | src/wn_x509.c:1438-1442 | For years 0 to 9999 every intermediate stays in its range |
| CertTime.CertTimeEpoch | src/wn_x509.c:1466-1529 | The epoch is that of the time the element denotes; anything else is refused |
| CertTime.TimesAreEncodings | src/wn_x509.c:1466-1529 | Exactly the two encodings of valid times are accepted, the short one for 1950 to 2049 |
| CertTime.EpochIsOrder | src/wn_x509.c:1466-1529 | For seconds up to 59 the epoch preserves and reflects the calendar order |
| CertTime.LeapSecondCollides | src/wn_x509.c:1520-1527 | A concrete pair for which the order fails: 2016-12-31 23:59:60 and the midnight behind it have one epoch |
| CertTime.EpochOrderExactly | src/wn_x509.c:1466-1529 | For all accepted times the epoch is strictly smaller for the earlier one unless that is a second 60 and the other the start of the next minute, and two different times have one epoch exactly then |
| CertTime.NextMinuteEpoch | src/wn_x509.c:1520-1527 | Every accepted second 60 has the epoch of the start of the next minute, over hours, days, months and years |
| CertTime.EpochWeakOrder | src/wn_x509.c:1466-1529 | With second 60 the order is still preserved weakly |
| CertTime.SameInstant | src/wn_x509.c:1466-1529 | A UTCTime and the GeneralizedTime of the same instant give equal epochs |
| CertTime.TimeValid | src/wn_x509.c:1531-1555 | A certificate is in time exactly between its two times, both included |
| HostName.DnsNameMatch | src/wn_connect.c:1088-1111 | Success if and only if the names are equal up to ASCII case, or the wildcard stands for exactly the first, non-empty label |
| HostName.FirstDotOnly | src/wn_connect.c:1096-1104 | A dotted suffix can only match behind the first dot, so the scan loses no match |
| HostLabels.MatchesByLabels | src/wn_connect.c:1088-1111 | Label by label: a match is the same labels up to case, or the label * against a first label that is not empty, with all others the same (RFC 6125 section 6.4.3) |
| Chain.WalkExactly | src/wn_connect.c:1378-1426 | The walk succeeds if and only if some prefix of the chain is linked signature by signature and ends at the anchor, each presented issuer other than the anchor being a CA that may sign and is in time |
| ChainExactly.VerdictExactly | src/wn_connect.c:1359-1474 | For every chain, name and pin: it is accepted, with the leaf's key, if and only if it leads to the anchor, each certificate signed by the next one's key with an algorithm of its kind, each presented issuer an authority in time, and the leaf may sign and serve, has the pinned key, carries the name and is in time |
| ChainExactly.OtherNameRefused | src/wn_connect.c:1454-1459 | No leaf is accepted for a name that it does not carry |
| ChainExactly.RefusedExactly | src/wn_connect.c:1359-1474 | The status otherwise: no chain, a key that is too long, or a bad chain |
| Chain.WalkStep | src/wn_connect.c:1379-1426 | One iteration stops at the anchor's key, or accepts exactly a good link |
| Chain.CheckServerName | src/wn_connect.c:1149-1178 | A stored dNSName matches, or the common name when there is none |
| Chain.CheckLeaf | src/wn_connect.c:1441-1468 | Key usage, purposes, pin, name and validity of the leaf |
| Chain.VerifyChain | src/wn_connect.c:1359-1474 | The verdict is that of the specification, with the leaf's SPKI on success |

## Left out

- Crypto: the primitives themselves, their wrappers for key shares, transcripts and signature schemes (`wn_keyshare.c`, `wn_hybrid.c`, `wn_transcript.c`, the verify and sign bodies); a hash, extraction, expansion, MAC and sealing never fail here, a key agreement, an opening and a signature can.
- One configuration: X25519, AES-128-GCM, SHA-256, no ML-DSA, the native certificate parser with host names, common names and time checking on, no alerts sent during a handshake. The asn.c backend of the chain walk is not part of this model.
- Tables: object identifiers, error and alert codes are finite tables; only the entries the parser distinguishes appear.
- NULL arguments, small-stack allocation and failing allocation.
- Wiping of temporaries and scratch buffers; only the wiping of the session is modelled. Constant time and secrecy are not properties of this model.
- Transport: a failed send delivers nothing; a negative return of the receive callback is the end of input.
- Flags: the C bit masks are booleans, and present/critical pairs of a certificate extension are one value.
- References into a message are offset and length; the reader works on an immutable message, so aliasing of a message with a buffer being written is modelled only where the code decrypts in place or accumulates. The leaf key is kept as a value instead of in the last region of the client's scratch buffer.
- Lockstep.RunInLockstep: the peer sends each ticket and key update whole in one record, with a key update last. A peer that spreads a message over records, as RFC 8446 section 5.1 allows, is refused at its first part (`PostHsLanguage.FragmentRefused`), and no claim is made for what it sends behind that; a key update that is not last is accepted (`PostHsLanguage.PostHsExactly`). The peer's close_notify and closing are in `EndOfStream`. The caller's buffer holds the peer's data.
- Interop.EndToEnd: neither side closes during the run; closing, and a channel that is cut, are in `EndOfStream.NoTruncation`.
- EndOfStream.NoTruncation: none of the writer's sends fails, and the reader's buffers hold the records and data. The channel is cut, not tampered with: a forged close_notify is for the primitives to refuse.
- PskAgreement.TooLongFails: a ClientHello of 65536 octets or more that the half buffer of the server could hold, with 78 octets or more behind it: no claim is made, and no client of this library sends them.
- ServerStart.RecvFinished: the certificate server decrypts from one half of its scratch buffer into the other, and for a record longer than the half buffer the two regions overlap; opening is a function of the record here, so what the primitive does with overlapping regions is not part of this model. The Finished of an honest client has 58 octets and never overlaps.
- CertAgreement.CertAgreementExactly: the server presents one certificate, as its driver does; longer chains are covered by the chain walk and by any received flight.
- HelloRetryRequest between two honest endpoints of this library: the client refuses a retry as unsupported, so the retry is proved for the server alone.
- HelloStructure.AcceptedStructure: the key_share and supported_groups vectors need not end where their inner length says, as in the code.
- X509RoundTrip.ParsePrint: the slice of a validity time keeps its length in 16 bits, as in the code; the common name is stated for subjects that are well-formed distinguished names, other subjects are only searched as `X509.X509Cert.FindCN` says.
- X509Converse.ParserAcceptsExactly: inputs of 2^24 octets and more are covered in one direction, by `X509Converse.AcceptedIsEncoding`.
- Chain.WalkExactly: a leaf that carries the anchor's key ends the walk at once, without a signature check, as in the code.
- CertClient.TakeMessage: a signature scheme that does not fit the leaf key and a signature that does not verify are one failure.
- Examples, benchmarks, sockets, random-number and seed hooks.
