# Verified model of the Basil Go client's local cryptographic formats

This project models, in Dafny, the parts of the Basil Go client that build and take apart untrusted
bytes without a broker, and proves what they promise:

* **the streaming AEAD container** (`stream/`): header, length-prefixed AEAD records, one-chunk
  look-ahead on both sides, and the ML-KEM envelope;
* **the strict protobuf codec of the Nix cache calls** (`basil/nix_cache_codec.go`, `basil/nix_cache.go`);
* **sealed invocations** (`sealedinvocation/`): the protected header with its exact `crit`, and building
  and opening COSE messages.

`dafny verify dfyconfig.toml` checks everything.

## How the code is modelled

| file | models |
|---|---|
| `Wrappers.dfy`, `Bytes.dfy`, `Utf8.dfy` | options and results, byte strings, big-endian integers, concatenation, UTF-8 (RFC 3629) |
| `Format.dfy` | fixed header, additional data, nonces, suite tables (`stream/format.go`) |
| `Chunking.dfy` | how a plaintext is cut into chunks |
| `Schedule.dfy` | how a reader answers its calls, and what readFull and the look-ahead make of that |
| `Aead.dfy` | the abstract primitives and the strengths assumed of them |
| `Records.dfy` | the record sequence: the writer's output, and a pure reader on byte strings |
| `Safety.dfy` | what any reading can hand out under a log of runs; cut and extended bodies |
| `StreamIO.dfy`, `Stream.dfy` | reader and writer objects, `readFull` and its users, the two chunk loops |
| `Container.dfy`, `Kem.dfy` | whole containers, the four entry points, the key envelope |
| `Endings.dfy`, `Layout.dfy` | every way a reading fails; where everything stands, and the cipher of each suite |
| `KemSafety.dfy` | ML-KEM containers in a world of several streams and wrapped keys |
| `ToyKeys.dfy`, `Instances.dfy`, `SealedInstances.dfy` | toy primitives that meet each assumption |
| `Wire.dfy` | varints, tags and fields of the Protocol Buffers encoding |
| `NixSchema.dfy`, `NixPreflight.dfy` | schemas and value rules; the bitmask loop against its specification |
| `NixCodec.dfy`, `NixMarshal.dfy`, `NixClient.dfy` | the codec, its size caps, the client's own checks |
| `Cbor.dfy`, `ProtectedHeader.dfy` | CBOR values; the protected header's encoder and parser |
| `SealedInvocation.dfy`, `SealedOpening.dfy` | COSE messages built, decoded and opened; what that guarantees |
| `SealedBinding.dfy`, `SealedAcceptance.dfy` | what a sealed content is bound to; every header and message that is accepted |

Loops and objects keep their form: `Source` and `Sink` are classes standing for the caller's `io.Reader`
and `io.Writer`, and `ReadFull`, `WriteChunks`, `ReadChunks`, the entry points, the preflight loop and the
header builders and parsers are methods, each proved against a function or a predicate on its state.
The lemmas are about those functions.

**Readers and writers.** A `Source` answers its calls as its list of turns says: how many bytes come, and
whether it reports the end, claims it early or fails. Every reader has such a list for every run. A *reliable*
one does not fail, does not claim the end early and never delivers zero bytes without an error while bytes
remain. Everything said of a run without the word reliable holds for every source.

**Primitives.** AEAD, HKDF, ML-KEM, X25519, Ed25519, SHA-3 and the CBOR library are abstract functions.
What is assumed of them is always a hypothesis of the lemma that needs it:

* `Tidy`: opening is exactly the inverse of sealing (section 2 of RFC 5116).
* `Ideal`/`World`: a finite log of encryptions, no two in the same context, under content keys of a set: finished
  or broken off, with whatever chunks their readers let come out. Under the message keys of those content keys,
  what opens with additional data of a chunk's length is a logged chunk. Other keys and other additional data
  are not spoken of, so there may be any number of other streams, and wrapped keys open as they will. A 16-byte
  tag cannot be injective, so the log is finite, and `Tidy` and `Ideal` exclude each other.
* `KeyUnique`: no other salt or content key of the set derives a logged stream's message key. HKDF output has
  32 bytes, so injectivity over all inputs cannot hold; this says only that logged keys have no second origin.
* `RecoversExactly`: a recovery opens exactly the envelopes logged for it. For the holder of a seed this is proved
  (`LocalSeedExactly`) from two assumptions about the keys that this recipient can come to, and no others: what
  opens under them with a wrapped key's data is logged (`OnlyWraps`), and none of them comes from another
  encapsulated key (`WrapKeysUnique`). Anyone may wrap a key of their own for a recipient; such keys are not
  content keys of the log.
* `Correct`: decapsulation inverts encapsulation (section 7 of FIPS 203).
* `Faithful`: CBOR decoding inverts encoding on small values of the subset, and text that is not UTF-8 is
  never decoded. `Agrees`, `Verifies`, `SignedOnly`: Diffie-Hellman agreement and AEAD inversion; signatures
  verify; only logged messages verify.

* `OnlySealed`: a finite log of sealings; under the keys one private key can come to, by any public key and for any
  purpose, nothing else opens, and none of those keys has a second origin. It speaks of no other keys. It excludes the
  AEAD inversion in `Agrees`, which opens infinitely many ciphertexts, so no lemma assumes both.

Randomness is a parameter.

## What came out

* `readFull` takes a read of zero bytes without an error for the end of input. `io.Reader` discourages such
  reads but allows them. After one inside a chunk `writeChunks` seals a short chunk as non-final, and the
  container is refused. After one between two chunks it stops: encryption succeeds, decryption succeeds, and
  the bytes that were still to come are silently missing. `RoundTripExactly` says for every reader when the
  round trip holds (`Steady`: no readFull comes back short while bytes remain), and `StalledReaders` proves each of
  the two failures of a three-byte input.
* A comment in `stream/stream_test.go` (line 104) expects an empty final record after an exact multiple of
  the chunk size. The code (`stream/stream.go:258`) writes none, and the model follows the code. The reader
  accepts such a record all the same, so there decoding and encoding again does not give the same bytes:
  exactly for bodies of more than 20 bytes whose length leaves 20 when divided by the chunk size plus 20
  (`ReencodeAccepted`, with an example for every chunk size in `ReencodeFails`).
* `validateResponseClaims` compares `exp - iat` as an int64, so a response whose lifetime is at least
  2^63 seconds passes the limit (`OverlongLifetimePasses`) and is opened (`OverlongLifetimeOpens`).
  `TimesExactly` says which claims pass, `AlwaysWindow` for which claims the check is the interval test at
  every time, and `ResponseOpensInWindow` gives the interval for all others.
* A header without CWT claims is refused as "missing iat" rather than "missing CWT claims": re-encoding an
  absent entry gives null, and null decodes to an empty map (`AbsentClaimsRefused`).
* A request whose lifetime is below a second may have expired when it is issued: both ends are whole seconds
  (`RequestLifetime`).
* The preflight accepts varints that are not the shortest for their value; what the codec writes itself is
  always shortest.

## Model

| member | source | states |
|---|---|---|
| Bytes.FirstByteWeighs | stream/stream.go:266-267 | integers are read with the first byte weighing most |
| Utf8.Utf8Exact | basil/nix_cache_codec.go:212-222 | text counts as UTF-8 if and only if it is the concatenation of encodings of Unicode scalar values (section 3 of RFC 3629): every length from one byte to four, no overlong form, no surrogate, nothing above U+10FFFF |
| Format.HeaderRoundTrip | stream/format.go:174-215 | every valid header is read back from its own 61 bytes, whatever follows |
| Format.HeaderCanonical | stream/format.go:188-215 | the parser accepts only the printed form of a valid header, so printer and parser are mutual inverses |
| Format.HeaderLayout | stream/format.go:174-186 | where magic, version, suite, flags, chunk size, stream id and salt stand in the 61 bytes |
| Format.HeaderRefusals | stream/format.go:188-215 | which bytes are refused as a header and with which of the six errors; all others are accepted |
| Format.ChunkLayout | stream/format.go:217-260 | where each part of the additional data and of the nonce stands |
| Format.CekWrapLayout | stream/format.go:242-251 | where each part of a wrapped key's additional data stands |
| Format.ChunkAadInjective | stream/format.go:217-241 | chunk additional data is 39 bytes and equal only for equal suite, stream id, index, flag, length and chunk size |
| Format.CekWrapAadSeparate | stream/format.go:242-251 | the wrap's additional data is 22 bytes, injective, and never that of a chunk |
| Format.ChunkNonceInjective | stream/format.go:253-260 | nonces are 12 bytes and differ for different indices |
| Bytes.Uint32RoundTrip | stream/stream.go:260-267 | a uint32 conversion and its 4-byte form lose nothing below 2^32 |
| Bytes.Uint32Found | stream/stream.go:429-430 | four bytes are the 4-byte form of the number read from them |
| Container.MessageKeyInfoInjective | stream/format.go:262-279 | the message key's KDF info determines suite and stream id |
| Container.NoncesDistinct | stream/stream.go:251-275 | the wrapping uint64 counter gives distinct nonces to a run of n chunks if and only if n is at most 2^64 |
| Chunking.ChunksWellChunked | stream/stream.go:246-280 | the chunks of a plaintext are full except the last, never end in a superfluous empty one, and concatenate to it |
| Chunking.ChunksUnique | stream/stream.go:258 | they are the only such cut of the plaintext |
| Chunking.ChunksCount | stream/stream.go:246-280 | there are max(1, ceil(n / size)) of them |
| Chunking.TrailingEmptyByLength | stream/stream.go:258 | the length of a framed cut tells whether it ends in a superfluous empty chunk |
| Schedule.FillHonest | stream/stream.go:436-455 | an honest reader fills every buffer as far as its bytes go, however it splits them |
| Schedule.FillEnds | stream/stream.go:436-455 | readFull fails exactly if the last call it makes does, and stops at the first call that fails, ends or brings nothing |
| Schedule.HonestSteady | stream/stream.go:246-280 | every honest schedule is one the writer copes with |
| Schedule.IntakeWhole | stream/stream.go:246-280 | what the writer takes in and what it never asks for make up the data, in chunks of at most the chunk size |
| Schedule.IntakeExactly | stream/stream.go:246-280 | for every reader: all chunks but the last come out full and no byte is left behind if and only if no readFull fails or comes back short while bytes remain |
| StreamIO.Source.Read | stream/stream.go:442-443 | a reader's answer: as many bytes as its turn says, in order, the status of that turn, and nothing else in the buffer changed |
| StreamIO.Sink.Write | stream/stream.go:268-273 | a writer's contract: all of the bytes, or an error and a prefix of them |
| StreamIO.ReadFull | stream/stream.go:436-455 | for every reader exactly what Fill says of its turns: count, calls and failure, with the next bytes in the buffer; from a reliable one min(length, remaining) of them |
| StreamIO.ReadRecordExact | stream/stream.go:404-415 | exactly n bytes, or ErrTruncated exactly if a reliable source has fewer |
| StreamIO.ReadRecord | stream/stream.go:395-402 | a record bounded before it is allocated: no buffer above maxRecord whatever length is claimed |
| StreamIO.ReadLenPrefix | stream/stream.go:417-434 | clean end, torn prefix and whole prefix are told apart exactly |
| Stream.LookAhead | stream/stream.go:251-280 | reading one chunk ahead identifies the last chunk of the plaintext |
| Stream.WriteRecord | stream/stream.go:260-273 | one frame written: length prefix and seal, or a prefix of that and the writer's error |
| Stream.WritingStep | stream/stream.go:251-280 | one turn of the writer keeps: sealed chunks, held chunk and unread bytes make up the plaintext |
| Stream.RunTurn | stream/stream.go:251-280 | one turn of the writer keeps what the destination holds: the records sealed so far, a prefix of the whole body |
| Stream.WriteChunks | stream/stream.go:238-282 | from every reliable source, however split, exactly header and records of the plaintext's chunks, only the last final; from any source the chunks its turns make the look-ahead take in; a failed run wrote a prefix |
| Records.EmittedPrefix | stream/stream.go:251-280 | records written before the last chunk are a prefix of the whole body |
| Records.PrefixReads | stream/stream.go:266-267 | a written length prefix is read back as the record's length |
| Records.PrefixFound | stream/stream.go:417-434 | a prefix followed by that many bytes is the framing of those bytes |
| Records.ReadFromComplete | stream/stream.go:304-337 | every well-chunked list that was sealed is read back chunk for chunk |
| Records.ReadFromSound | stream/stream.go:304-337 | accepted bytes are exactly the records of the chunks written out, each sealed at its own index and flag |
| Records.AcceptedLanguage | stream/stream.go:286-339 | with a tidy AEAD the reader accepts data with output chs if and only if data frames chs and chs is well-chunked |
| Records.ReencodeAccepted | stream/stream.go:258-339 | encrypting the output again gives the same bytes if and only if their number does not betray a superfluous empty final record (more than 20, and 20 modulo the chunk size plus 20) |
| Records.ReencodeFails | stream/stream.go:286-339 | for every context an accepted body whose output is written differently |
| Records.FramesLength | stream/stream.go:260-273 | every chunk costs 20 bytes of framing |
| Endings.FailuresExactly | stream/stream.go:286-434 | every failed reading from the bytes alone: the output stands in front as full records with more behind them, then comes a length above chunkSize + 16 (ErrChunkTooLarge), a record or prefix cut off (ErrTruncated), or a record that is not the seal of any chunk that may stand there (ErrAuthFailed) |
| Aead.IdealPins | stream/format.go:217-279 | under the log whatever opens under one of its keys is a chunk of the run in the very context it was opened in, in its own place |
| Aead.IdealSound | stream/stream.go:311-325 | the log makes the reader sound under its keys without a tidy AEAD |
| Aead.TidySound | stream/stream.go:311-325 | so does a tidy AEAD |
| Stream.OpenCurrent | stream/stream.go:309-325 | one record opened as chunk number index: too short, not authentic and not full are ErrAuthFailed |
| Stream.FirstRecord | stream/stream.go:290-302 | the first prefix and record start the reading, or end it as the bytes determine |
| Stream.OpenNext | stream/stream.go:305-325 | the next length prefix decides whether the record in hand is opened as final |
| Stream.ReadingTurn | stream/stream.go:304-337 | one turn of the reader hands out an authentic chunk and keeps the rest of the reading as the bytes determine it |
| Stream.ReadingOn | stream/stream.go:304-337 | the loop's state after a turn that goes on |
| Stream.ReadChunks | stream/stream.go:284-339 | from any source all plaintexts handed out are authentic; from a reliable one the run does exactly what its bytes determine; it ends on every finite input and holds no buffer above chunkSize + 16 |
| Safety.AuthenticPrefix | stream/stream.go:286-339 | under a log of any runs, finished or not, what was read under one of its keys is a prefix of the chunks of one single run, in its own context, and a reading finishes exactly with all chunks of a finished run |
| Safety.BodyAuthentic | stream/stream.go:286-339 | the pure reader hands out authentic plaintexts only |
| Safety.BodyUnique | stream/stream.go:286-339 | under the log a body is accepted in a context if and only if it is that of a finished run in the context whose chunks but the last are full |
| Safety.BodyCut | stream/stream.go:286-339 | every proper prefix of a body fails with the error of its cut point, having handed out a proper prefix of the chunks |
| Safety.BodyExtended | stream/stream.go:304-325 | 1 to 3 more bytes give ErrTruncated, more give ErrAuthFailed, and all but the final chunk is handed out |
| Container.AeadRoundTrip | stream/stream.go:84-154 | decrypting a container gives the very chunks sealed, for every plaintext, chunk size and AEAD suite |
| Container.UniqueAcceptance | stream/stream.go:134-154 | in a world of many encryptions, stalled and broken off ones among them, a content key and bytes are accepted if and only if some finished encryption with full chunks under that key wrote just those bytes; splices of several streams are rejected |
| Container.LoggedBodyExactly | stream/stream.go:286-339 | behind a header and under a content key exactly the bodies of finished encryptions with full chunks logged under both are accepted |
| Container.WholeEncryption | stream/stream.go:246-280 | the encryption of a plaintext on a steady schedule is one of those, and seals all of it |
| Container.CutContainer | stream/stream.go:286-351 | a proper prefix fails with ErrShortHeader below 61 bytes, ErrAuthFailed at a record boundary after a record, ErrTruncated anywhere else |
| Container.ExtendContainer | stream/stream.go:304-325 | an extended container fails with ErrTruncated for 1 to 3 bytes and ErrAuthFailed for more |
| Container.ContainerLength | stream/stream.go:240-282 | a container has 61 bytes, the plaintext, and 20 bytes for each of max(1, ceil) chunks |
| Layout.BodyLayout | stream/stream.go:238-282 | record k stands at k times (chunk size + 20): its length, then chunk k sealed with the suite's cipher, under the key drawn from content key and salt for this suite and stream, with four zero bytes and k as nonce and the additional data spelt out |
| Layout.SuiteCipherOnly | stream/format.go:131-141 | sealing and opening depend on the cipher of the suite alone, ChaCha20-Poly1305 for suite 2 and AES-256-GCM for all others: primitives that agree on it write the same container and make the same of any bytes, for AEAD and ML-KEM containers |
| Layout.SuiteCipherMatters | stream/format.go:131-141 | for every header two primitives that differ in that cipher alone and write different containers |
| Container.SealedDecrypts | stream/stream.go:286-339 | a body sealed from any chunks decrypts, to all of them, if and only if every chunk but the last is full; else ErrAuthFailed |
| Container.RoundTripExactly | stream/stream.go:436-455 | from any reader: what was encrypted successfully decrypts to the reader's bytes if and only if its schedule is steady; otherwise it is refused or decrypts to a proper prefix |
| Container.RefusedIntake | stream/stream.go:450-452 | one, none, two bytes in chunks of two: a short chunk in front |
| Container.TruncatedIntake | stream/stream.go:450-452 | two, none bytes of three in chunks of two: the third is never asked for |
| Container.DecryptionIsSafe | stream/stream.go:134-339 | over every run, failed ones included and ML-KEM ones too, the plaintexts handed out under a logged content key are a prefix of one single encryption made under that very header and key, and success means all of it |
| Container.DeliveredPrefix | stream/stream.go:326-328 | the destination keeps what it held, never gets more than those plaintexts, and gets all of them unless a Write failed |
| Container.EncryptAEAD | stream/stream.go:80-128 | each error exactly in its case with nothing written; else the container of the source's bytes under the returned key |
| Container.ReadFixedHeader | stream/stream.go:341-351 | the first 61 bytes parsed, and exactly those consumed |
| Container.DecryptAEAD | stream/stream.go:130-154 | from a reliable source what the bytes determine, from any source safely |
| Container.SealAndOpen | stream/stream.go:84-154 | encrypting and decrypting in memory gives the plaintext for all honest read schedules on both sides |
| Container.SealAndOpenFrom | stream/stream.go:84-154 | the same from any source: success unless the source fails, and the source's bytes back if and only if its schedule is steady |
| Container.StalledReaders | stream/stream.go:450-452 | from two readers of the bytes 1, 2, 3: one container is refused, the other decrypts to 1, 2 without an error |
| Container.DecryptLogged | stream/stream.go:134-154 | in every run the destination gains a first part of one logged plaintext, all of it on nil, and nil comes exactly for logged containers |
| Kem.EnvelopeRoundTrip | stream/kem.go:247-261 | an envelope is read back from its bytes, and nothing more is consumed |
| Kem.EnvelopeCanonical | stream/stream.go:353-393 | an accepted envelope serialises to exactly the bytes read |
| Layout.EnvelopeLayout | stream/kem.go:247-261 | where lengths, encapsulated key (768, 1088 or 1568 bytes), nonce and wrapped key stand |
| Layout.EnvelopeRefusals | stream/stream.go:353-393 | which bytes are refused as an envelope and with which error; all others are accepted |
| Layout.WrapKeyLayout | stream/kem.go:220-245 | the wrapping key is drawn from the shared secret with 32 zero bytes of salt, for label, suite name, cipher name, encapsulated key and public key in this order |
| Layout.WrapCipherOnly | stream/kem.go:147-218 | content keys are wrapped and unwrapped with AES-256-GCM whatever the suite |
| Layout.RecoveryRefusals | stream/kem.go:147-218 | what wrapping and the recovery with a seed refuse, and with which error: suite, public key, seed of 64 bytes, ciphertext of the suite's length, authentication |
| Layout.EntryRefusals | stream/stream.go:130-236 | what both decryptions refuse before any record is read, and with which error; nothing is handed out |
| Kem.KemInfoInjective | stream/kem.go:227-237 | the wrap's KDF info determines suite, encapsulated key and public key, without length fields |
| Kem.InfosSeparate | stream/kem.go:232-237 | the two KDF uses never share an info string |
| Kem.WrapRoundTrip | stream/kem.go:147-218 | the seed's holder recovers the very content key that was wrapped |
| Kem.MlKemRoundTrip | stream/stream.go:156-236 | a container sealed to a seed's public key decrypts with the seed to the chunks sealed |
| Kem.EncryptMLKEM | stream/stream.go:156-201 | each error exactly in its case with nothing written; else header, envelope and records of the source's bytes |
| Kem.ReadKemEnvelope | stream/stream.go:353-393 | the reads piece by piece agree with the parser on bytes, errors included, and consume exactly the envelope |
| Kem.DecryptMLKEM | stream/stream.go:203-236 | from a reliable source what the bytes determine, from any source safely |
| Kem.SealAndOpenMlKem | stream/stream.go:160-236 | the ML-KEM round trip in memory for all honest read schedules on both sides |
| Kem.SealAndOpenMlKemFrom | stream/stream.go:160-236 | the same from any source: success unless the source fails, and the source's bytes back if and only if its schedule is steady |
| KemSafety.LocalSeedExactly | stream/kem.go:191-245 | with the seed exactly the recipient's logged envelopes open, whatever else opens for others: the AEAD pins nonce, ciphertext and data, the key derivation the encapsulated key |
| KemSafety.MlKemUniqueAcceptance | stream/stream.go:207-236 | under a content key of the log an ML-KEM container is accepted if and only if it is a finished logged encryption with full chunks behind a logged wrap of its key, byte for byte, whatever others wrapped |
| KemSafety.EnvelopeCut | stream/stream.go:353-393 | a cut envelope is ErrShortHeader where a length is due and nothing follows, ErrTruncated anywhere else |
| KemSafety.CutMlKemContainer | stream/stream.go:207-434 | every proper prefix of an ML-KEM container fails with the error its cut point determines in header, envelope or body |
| KemSafety.ExtendMlKemContainer | stream/stream.go:304-325 | bytes behind it: ErrTruncated for 1 to 3, ErrAuthFailed for more |
| KemSafety.DecryptMlKemLogged | stream/stream.go:203-236 | in every run what is handed out comes under a key of a logged envelope, and under a content key of the log it is a first part of one logged plaintext, all of it on nil |
| Instances.TidyInstance | stream/format.go:303-326 | primitives exist that invert exactly |
| Instances.WorldInstance | stream/format.go:303-326 | for every log of encryptions with different keys, salts or streams, and any wrapped keys for any recipients, primitives exist under which just that opens, and to each recipient exactly its own envelopes |
| Instances.TwoRecipientsInstance | stream/kem.go:191-218 | with an envelope for each of two recipients, each opens its own and only that |
| Instances.KemInstance | stream/kem.go:114-126 | a correct KEM exists |
| Wire.TakeVarintSound | basil/nix_cache_codec.go:81-85 | an accepted varint is the head of the bytes, well-formed, and its value is reported |
| Wire.TakeVarintComplete | basil/nix_cache_codec.go:109-112 | every well-formed varint is accepted whatever follows |
| Wire.VarintIsUint64 | basil/nix_cache_codec.go:109-112 | a varint of at most ten bytes, the tenth at most 1, is a uint64 |
| Wire.AppendVarintRoundTrip | basil/nix_cache_codec.go:24 | the varint written for a uint64 reads back as it |
| Wire.ItemFound | basil/nix_cache_codec.go:80-121 | a tag and value that are accepted are one well-formed field at the head of the bytes |
| Wire.TagExactly | basil/nix_cache_codec.go:80-86 | a tag is a varint of eight times a field number up to 2^31 - 1 plus a wire type |
| Wire.SplitUnique | basil/nix_cache_codec.go:80-121 | bytes split into well-formed fields in at most one way |
| NixSchema.FieldRuleRange | basil/nix_cache_codec.go:134-210 | each schema has rules for exactly the fields 1 to its count |
| NixSchema.CheckKeyName | basil/nix_cache.go:191-205 | the scan accepts exactly 1 to 128 letters and digits with '.', '_' and '-' after the first |
| NixSchema.KeyNameAlphabet | basil/nix_cache.go:191-205 | the bytes of a key name as characters |
| NixSchema.HasControlByte | basil/nix_cache_codec.go:218-222 | the scan finds a control byte if and only if there is one |
| NixSchema.CheckAllZero | basil/nix_cache.go:207-214 | the scan says whether every byte is zero |
| NixSchema.ValidateBytes | basil/nix_cache_codec.go:212-251 | accepts exactly the values of the rule's kind |
| NixPreflight.ScanSound | basil/nix_cache_codec.go:80-131 | accepted bytes split into valid fields, each of the schema exactly once |
| NixPreflight.ScanComplete | basil/nix_cache_codec.go:80-131 | every such list of fields is accepted, in any order |
| NixPreflight.PreflightExact | basil/nix_cache_codec.go:70-132 | the preflight returns nil if and only if the bytes are within the cap and split into well-formed, valid fields, each once |
| NixPreflight.HoldsRequired | basil/nix_cache_codec.go:123-125 | the mask equals 2^n - 1 if and only if every field was seen |
| NixPreflight.ConsumeField | basil/nix_cache_codec.go:98-119 | one value taken and validated, or the error of its failure |
| NixPreflight.CheckRequired | basil/nix_cache_codec.go:123-131 | the error names the smallest missing field |
| NixPreflight.TakeField | basil/nix_cache_codec.go:81-120 | one turn on the bitmask agrees with one turn on the set of fields seen |
| NixPreflight.PreflightNixCacheProto | basil/nix_cache_codec.go:70-132 | the bitmask loop returns exactly the set-based parser's answer, error included |
| NixCodec.LenientItems | basil/nix_cache_codec.go:42 | protobuf decoding of a list of varint and length-delimited fields lets the last of each number win, and fails on a number above 2^29 - 1 |
| NixCodec.OtherWireTypes | basil/nix_cache_codec.go:42 | fields of four and eight bytes are skipped whole, any other wire type fails |
| NixCodec.NotUtf8Refused | basil/nix_cache_codec.go:19-32 | Marshal's first refusal: a text field that is not UTF-8, and only that |
| NixCodec.StrictFields | basil/nix_cache_codec.go:34-43 | on strict bytes last-one-wins decoding gives the unique value of each field |
| NixCodec.UnmarshalExact | basil/nix_cache_codec.go:34-43 | the strict decoder accepts exactly the strict encodings: nothing that passes the preflight fails to decode |
| NixCodec.UnmarshalFields | basil/nix_cache_codec.go:34-43 | the message is valid and made of the values on the wire |
| NixCodec.OrderIrrelevant | basil/nix_cache_codec.go:34-43 | permuting the fields does not change the decoded message |
| NixMarshal.CapsAreSums | basil/nix_cache.go:12-20 | each of 295, 203, 295, 205, 524939, 269 is the sum of its fields' greatest encodings |
| NixMarshal.EncodingBound | basil/nix_cache_codec.go:75-77 | valid fields encode within their bounds, and to exactly the sum if each is of greatest length |
| NixMarshal.SizeWithinCap | basil/nix_cache.go:12-20 | no valid message encodes to more than its cap |
| NixMarshal.CapAttained | basil/nix_cache.go:12-20 | in each schema some valid message attains the cap |
| NixMarshal.ValidEncodesStrictly | basil/nix_cache_codec.go:19-32 | the canonical encoding of a valid message is strict |
| NixMarshal.MarshalExact | basil/nix_cache_codec.go:19-32 | Marshal accepts a message if and only if each field is valid |
| NixMarshal.MarshalRoundTrip | basil/nix_cache_codec.go:19-43 | what Marshal lets out Unmarshal reads back as the same message |
| NixClient.ValidateNixCacheRequest | basil/nix_cache.go:135-148 | accepts exactly the valid key ids with two nonzero identifiers |
| NixClient.RequestsMarshal | basil/nix_cache.go:58-148 | a request passes the client's own checks if and only if its codec lets it out |
| NixClient.OnlyEchoCanFail | basil/nix_cache.go:91-205 | on a strictly decoded response the later checks can fail only at the echoed ids |
| NixClient.ResponsesMarshal | basil/nix_cache.go:91-205 | a response is let out by the codec if and only if its two ids are valid and the client that asked with them accepts it, dispositions 1 and 2 alike, and it is decoded as itself |
| NixClient.EchoIsOnTheWire | basil/nix_cache.go:158-174 | the response is accepted if and only if the expected ids are on the wire, in whatever order |
| ProtectedHeader.CritLabelsCanonical | sealedinvocation/sealedinvocation.go:462-485 | crit holds exactly the labels of the claims carried, in strictly increasing bytewise CBOR order |
| ProtectedHeader.BuildCritLabels | sealedinvocation/sealedinvocation.go:462-485 | the appends compute that list |
| ProtectedHeader.BuildCwt | sealedinvocation/sealedinvocation.go:427-440 | the CWT claims map, optional claims only where set |
| ProtectedHeader.EncryptProtected | sealedinvocation/sealedinvocation.go:422-460 | filling the map in place gives the encoded header of the claims |
| ProtectedHeader.ProtectedEntry | sealedinvocation/sealedinvocation.go:422-460 | each label's entry, and no entry under any other label |
| ProtectedHeader.ParseCwt | sealedinvocation/sealedinvocation.go:603-626 | claims of the CWT map, iat and cti required |
| ProtectedHeader.ParsePrivate | sealedinvocation/sealedinvocation.go:627-647 | claims of the header itself, a challenge of another length refused |
| ProtectedHeader.ParseCrit | sealedinvocation/sealedinvocation.go:648-666 | the loop accepts exactly the labels of the parsed claims |
| ProtectedHeader.ParseEncryptProtected | sealedinvocation/sealedinvocation.go:590-668 | the field-by-field parser computes the pure one, errors in the same order |
| ProtectedHeader.ProtectedRoundTrip | sealedinvocation/sealedinvocation.go:422-668 | a header parses back to its content type and claims if and only if those are encodable (UTF-8 texts, non-empty content type, a cti, a challenge of 32 bytes), over the whole int64 range; else it is refused |
| ProtectedHeader.AcceptedCritExact | sealedinvocation/sealedinvocation.go:648-667 | every accepted header lists in crit exactly the labels of the claims it yielded, in canonical order (section 3.1 of RFC 9052) |
| ProtectedHeader.UnknownEntriesIgnored | sealedinvocation/sealedinvocation.go:590-668 | headers that agree under the labels of the profile parse alike, whatever else they carry |
| ProtectedHeader.AbsentClaimsRefused | sealedinvocation/sealedinvocation.go:603-620 | a header without CWT claims is refused for a missing iat |
| ProtectedHeader.ParseNormalForm | sealedinvocation/sealedinvocation.go:422-668 | what is parsed can be encoded, and parses to itself again |
| SealedAcceptance.CritExactly | sealedinvocation/sealedinvocation.go:648-666 | crit is accepted if and only if it is the encoder's list for the claims parsed, item for item |
| SealedAcceptance.HeaderAccepted | sealedinvocation/sealedinvocation.go:590-668 | every accepted header, whoever made it, is the encoder's own for some content type and claims, and is read as just those; only unknown labels and wrongly typed entries in the place of absent claims are ignored |
| SealedAcceptance.HeaderRefused | sealedinvocation/sealedinvocation.go:590-668 | why a header is refused: the first of nine reasons |
| SealedOpening.Sign1ReadsBack | sealedinvocation/sealedinvocation.go:312-527 | a signed message yields its payload exactly under its own key id and a verifying signature |
| SealedOpening.EncryptReadsBack | sealedinvocation/sealedinvocation.go:347-583 | an encrypted message decodes to what it was built from unless its protected header is refused |
| SealedAcceptance.Sign1Accepted | sealedinvocation/sealedinvocation.go:487-527 | every accepted signed message: tag 18 around four fields, algorithm -8, the expected key id, and a signature of header and payload that verifies |
| SealedAcceptance.EncryptAccepted | sealedinvocation/sealedinvocation.go:529-583 | every accepted encrypted message: tag 96 around four fields, a header of the profile, a 12-byte nonce, and exactly one recipient with algorithm -25, a key id and a 32-byte ephemeral key |
| SealedAcceptance.WrongTagRefused | sealedinvocation/sealedinvocation.go:487-540 | another tag is refused for its tag, untagged or undecodable bytes as such |
| SealedAcceptance.Sign1Refused | sealedinvocation/sealedinvocation.go:487-527 | of a signed message of the right shape: why it is refused, or what it yields |
| SealedAcceptance.EncryptRefused | sealedinvocation/sealedinvocation.go:529-583 | of an encrypted message of the right shape: no or several recipients, a refused header, a bad nonce |
| SealedAcceptance.WrongKindsRefused | sealedinvocation/sealedinvocation.go:529-548 | four fields of the wrong kinds are no encrypted message, null is no recipient |
| SealedAcceptance.RecipientRefused | sealedinvocation/sealedinvocation.go:553-583 | why its recipient is refused |
| SealedAcceptance.BuiltOnTheWire | sealedinvocation/sealedinvocation.go:312-420 | what goes out for a sealing, as COSE values with their registered numbers: the signed message, its header, the encrypted message, its recipient and the ephemeral COSE_Key |
| SealedBinding.StructuresReadBack | sealedinvocation/sealedinvocation.go:750-783 | Sig_structure, Enc_structure and COSE_KDF_Context as values, with context text, algorithm and key length |
| SealedBinding.StructuresInjective | sealedinvocation/sealedinvocation.go:761-783 | Enc_structure and COSE_KDF_Context determine the header they are about |
| SealedOpening.BuiltEncryptDecodes | sealedinvocation/sealedinvocation.go:347-583 | a built message decodes if and only if its claims are encodable, and then to exactly them |
| SealedOpening.BuiltEncryptOpens | sealedinvocation/sealedinvocation.go:347-724 | the recipient derives the sender's key and opens the very plaintext, under its own key id only |
| SealedBinding.OpensExactly | sealedinvocation/sealedinvocation.go:682-724 | if only logged sealings open under keys the private key can come to, a plaintext comes out if and only if the message carries nonce, ciphertext, protected header and recipient header of one of them under the recipient's key id, and the private key and the message's ephemeral key agree on the very secret it was sealed with |
| SealedBinding.OpenRefused | sealedinvocation/sealedinvocation.go:682-724 | and why nothing comes out of any other message |
| SealedBinding.BuiltCarries | sealedinvocation/sealedinvocation.go:347-420 | a built message carries its sealing to whoever agrees on the secret |
| SealedBinding.PayloadsExactly | sealedinvocation/sealedinvocation.go:259-301 | whoever signed it, a payload is opened as a response if and only if it carries a logged sealing for this private key whose claims pass the checks, and then to that sealing's plaintext and content type |
| SealedOpening.ResponseOpensExactly | sealedinvocation/sealedinvocation.go:259-301 | a built response opens if and only if ids, hash, content type and claims are as expected and in date, and only ever to its own plaintext |
| SealedOpening.ResponseResult | sealedinvocation/sealedinvocation.go:259-301 | what comes of a built response where no time wraps, to the reason: the first thing that is not as expected (signer, header, sender, request id, hash, times, content type, recipient) or its plaintext |
| SealedOpening.Tolerances | sealedinvocation/sealedinvocation.go:263-270 | a minute of skew and five minutes of lifetime by default, else the caller's whole seconds |
| SealedOpening.TimesWithoutWrap | sealedinvocation/sealedinvocation.go:726-748 | without wrap-around the check is iat - skew <= now <= exp + skew and 0 < exp - iat <= maxTTL on a reply's claims, for every skew |
| SealedOpening.TimesExactly | sealedinvocation/sealedinvocation.go:726-748 | exactly which claims pass with wrap-around: those in date whose sums fit, those with a lifetime of 2^63 seconds or more, and those a negative skew takes below -2^63 |
| SealedOpening.AlwaysWindow | sealedinvocation/sealedinvocation.go:726-748 | from claims, skew and limit alone, negative ones included, when the check is the interval test at every time |
| SealedOpening.OverlongLifetimePasses | sealedinvocation/sealedinvocation.go:735-737 | a concrete claim set beyond every limit that passes |
| SealedOpening.OverlongLifetimeOpens | sealedinvocation/sealedinvocation.go:259-301 | an expected response with a lifetime of 2^63 seconds or more is opened whatever the limit |
| SealedOpening.SecondsBounded | sealedinvocation/sealedinvocation.go:728-735 | a duration's whole seconds are truncated towards zero and below 2^63 / 10^9 |
| SealedOpening.ResponseOpensInWindow | sealedinvocation/sealedinvocation.go:259-301 | an expected response opens to its plaintext at precisely the times in [iat - skew, exp + skew] and to nothing at any other |
| SealedOpening.ExpectationsPinned | sealedinvocation/sealedinvocation.go:272-289 | any one message, built or not, opens for at most one broker key id, request id, request hash and recipient key id |
| SealedOpening.SigStructureInjective | sealedinvocation/sealedinvocation.go:750-759 | the signed structure determines header and payload |
| SealedOpening.ResponseAuthentic | sealedinvocation/sealedinvocation.go:259-301 | if only the broker's messages are signed, whatever bytes open hold one built for this request and client, in date, and give the plaintext and content type put in |
| SealedOpening.RequestRefusals | sealedinvocation/sealedinvocation.go:223-355 | when a request is built and the first reason why not |
| SealedOpening.RequestDecodes | sealedinvocation/sealedinvocation.go:223-255 | the recipient of a built request finds each of the caller's fields in its own claim, no response claims, and the plaintext, unless one of the five texts is not UTF-8 or the content type is empty |
| SealedOpening.RequestLifetime | sealedinvocation/sealedinvocation.go:231-243 | exp - iat is the lifetime in whole seconds, one more if the fractions add up to a second |
| SealedInstances.EncPrefix | sealedinvocation/sealedinvocation.go:81-95 | a prefix-free encoding of all values of the subset exists |
| SealedInstances.FaithfulInstance | sealedinvocation/sealedinvocation.go:81-95 | so a faithful codec exists |
| SealedInstances.WorkingInstance | sealedinvocation/sealedinvocation.go:312-345 | primitives exist that meet all assumptions made for built messages |
| SealedInstances.SignedOnlyInstance | sealedinvocation/sealedinvocation.go:519-525 | for every log primitives exist under which only the messages in it verify |
| SealedInstances.OnlySealedInstance | sealedinvocation/sealedinvocation.go:682-724 | for every list of sealings primitives with a key agreement exist under which only those open, for the holder of any private key |

## Left out

- ParseEncryptProtected: the CBOR library is modelled on values. Floats, big numbers, indefinite lengths, maps with other keys and the library's limits are one opaque value; a tag or an integer array where a map or a byte string is expected is refused, where the library may look through it.
- SecondsBounded: does not model the float64 rounding of `Duration.Seconds`, which can reach the next whole second only for durations over half a year.
- LenientItems: lists hold varint and length-delimited fields; fixed-width ones are skipped by the model's decoder as unknown but not listed, and groups (wire types 3 and 4) are refused where the library would skip them; after a successful preflight none can occur.
- `CEKRecovery` through a broker: a remote call of which only the 32-byte check is local.
- Failures of the random source, of HKDF and of cipher construction: they cannot occur for the sizes used.
- Key lengths handed to `ed25519.Verify`, which panics on a public key that is not 32 bytes.
- `wipe`, contexts and cancellation, cached CBOR modes, wall-clock defaults and error texts.
- The gRPC forwarders, the generated protobuf code, `spiffe/`, the examples and the commands: no logic beyond copying fields.
- The internals of AES-GCM, ChaCha20-Poly1305, HKDF, ML-KEM, X25519, Ed25519 and SHA-3.
