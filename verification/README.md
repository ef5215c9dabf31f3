# The Hotline transport and presence core of mxd, in Dafny

mxd is a Hotline server. This project models the part of it that decides what bytes mean and who
is online, and proves properties of that model:

- **Framing.** A transaction travels as a series of frames: a 20-byte header and at most 32 KiB of
  data each, at most 1 MiB in all. `Series` gives the grammar of such a series; three fragmenters
  and five consumers are modelled as they run, each with its own loop and its own order of checks,
  and related to that grammar. `CodecReads` follows the buffered codec through reads and the end of
  the stream.
- **Parameter blocks.** `Params` gives the grammar of a block and the duplicate rule; decoder,
  validator and encoder (`ParamCodec`), XOR compatibility (`Compat`, `Protocol`) and login-reply
  augmentation (`CompatPolicy`) are proved on top of it. `WireBlocks` says the same of bare codes and
  header numbers, so that no result rests on the tables of the model.
- **Assembly payloads.** `MessageAssembly` has the internal payloads the frame decoder emits, their
  builders and their cursor-based parser.
- **Presence.** `Allocator`, `Presence`, `PresenceWire` and `Replica` have the cyclic id allocator,
  the registry, its notices on the wire, and the user list every peer keeps of it.
- **Sessions.** `Sessions` and `SessionRuns` have the handlers and every run of logins, updates and
  departures over any number of connections; `ListLimits` has runs whose user list cannot be sent.
- **News roots.** `Articles` has the chain of root articles of each category.
- **End to end.** `Pipeline` puts the pieces together in both directions.

State that the program changes in place is a class here, and each method is proved against a
function of its old state; the laws are then lemmas about those functions. `dafny verify
dfyconfig.toml` checks everything.

## What the proofs say about the code

Results a reader may not expect:

- `HotlineCodec` accepts exactly those transactions the reader accepts whose total fits one frame:
  it normalises `data_size` to `total_size` before a check made for physical frames, so everything
  above 32 KiB is rejected (`RunCodecAgrees`, `CodecMatchesReader`, `LargeRequestRejected`).
- A transaction of several frames that arrives in one read is not delivered by that read, because
  `decode` answers "nothing" after absorbing a fragment. `ReadDeliversAllIff` says of every state
  and every buffer, split into its frames, when a read leaves something behind: some frame has
  `data_size` below `total_size`, the frames before it are whole valid transactions, and anything
  but an incomplete frame follows it. The frame decoder has no such gap (`ChunkInvariance`).
- At the end of the stream this loses data: `decode_eof` absorbs one more frame and then reports
  what is still open. A burst of complete transactions, read in one go and closed, is heard exactly
  if all of them are acceptable and at most one frame among them is a continuation
  (`BurstHeardIff`); a complete series of three frames is reported as incomplete
  (`LongSeriesLost`, `ThreeFramesLost`).
- `HotlineCodec` encodes without comparing `total_size` to the payload; its output can be read back
  exactly when they agree (`CodecOutputReadable`, `DishonestTotal`), which every constructor ensures
  (`ConstructedHonest`).
- XOR detection misses clients whose complemented text is still UTF-8, such as a space followed by
  an at-sign (`MissedDetection`); `XorClientUnderstoodIff` says exactly when a client is understood.
  The documentation of `decode_payload` speaks only of the complemented text being UTF-8; the code
  also demands that some text is not UTF-8 as sent, and the model follows the code.
- The user list reaches a client exactly when every name has at most 65,527 bytes and all entries
  together fit 1 MiB (`ListSentIff`). A name of 65,528 to 65,535 bytes passes the change notice and
  then blocks the list for everybody (`LongNameBlocksList`); seventeen users with names of 65,527
  bytes make a list that is built and cannot be sent, and with all ids taken `reply_header` panics
  (`NamesFitListDoesNot`, `CrowdListedIff`).
- The tie-break documented for looking up a user id with several holders never applies
  (`LookupIsUnique`).

## Model

| member | source | states |
|---|---|---|
| `Headers.HeaderRoundTrip` | src/transaction/frame.rs:110-132 | Reading a written header returns it and writing a read header restores its 20 bytes. |
| `Headers.HeaderLayout` | src/transaction/frame.rs:110-122 | Each field stands at its own bytes of the twenty, most significant byte first. |
| `Headers.WriteBytes` | src/transaction/frame.rs:124-132 | The slice-by-slice fill leaves the caller's buffer holding exactly a header that reads back as this one, whatever was in it. |
| `FieldIds.CodeRoundTrip` | src/field_id.rs:81-117 | Every 16-bit code survives conversion to a field id and back, and converts to a canonical id. |
| `FieldIds.FieldRoundTrip` | src/field_id.rs:119-155 | A field id survives conversion exactly when no named variant stands for its code. |
| `FieldIds.NamedCodes` | src/field_id.rs:119-155 | The codes of the thirty named fields. |
| `Params.BlockAccepted` | src/transaction/params.rs:55-149 | The parser accepts a non-empty buffer with result `ps` if and only if the buffer is the wire form of `ps`, canonical, and no field repeats that may not. |
| `Params.RepeatIsRejected` | src/transaction/params.rs:39-49 | A printed list with a forbidden repeat is rejected with the code of its first repeat, whatever was already seen. |
| `Params.DecodeThenEncode` | src/transaction/params.rs:198-254 | Every non-empty buffer the decoder accepts is reproduced byte for byte by the encoder. |
| `Params.EncodeThenDecode` | src/transaction/params.rs:198-254 | Decoding an encoded canonical list returns it if nothing repeats, otherwise `DuplicateField` with the first repeated code; one of the two always applies. |
| `WireBlocks.DuplicateRule` | src/transaction/params.rs:13-49 | In codes: a block decodes to what it spells if and only if no code comes twice but 200, 321, 323 and, in the context that allows it, 300; otherwise the error has the first other code that comes again. |
| `WireBlocks.DamagedBlock` | src/transaction/params.rs:55-149 | A good block cut at any byte, or with bytes behind it, is a size mismatch. |
| `WireBlocks.ValidatedIff` | src/transaction/params.rs:170-187 | In header numbers: a payload passes if and only if it has the declared length and is empty, belongs to a request of type 200, 212 or 300, or is a block in which only the permitted codes repeat, 300 only in a reply of type 300. |
| `WireBlocks.BlockInBytes` | src/transaction/params.rs:235-254 | One block written out in bytes. |
| `ParamCodec.ParamIter.Next` | src/transaction/params.rs:100-136 | One step of the iterator yields the next entry's position and leaves an iterator whose outcome is the old one without it, or records the error that the whole block is rejected with. |
| `ParamCodec.ParamIter.Finish` | src/transaction/params.rs:139-149 | Finishing reports the recorded error, or a mismatch unless the buffer was consumed exactly. |
| `ParamCodec.ParamIter.Drain` | src/transaction/params.rs:183-207 | Draining the iterator and finishing it gives what the grammar's parser gives, errors included. |
| `ParamCodec.DecodeParams` | src/transaction/params.rs:198-209 | The decoding loop computes the parser of the block grammar. |
| `ParamCodec.ValidatePayloadParts` | src/transaction/params.rs:170-187 | The validator computes size check, bypass and context-dependent parse. |
| `ParamCodec.ValidatedDecodes` | src/transaction/params.rs:170-209 | Outside the bypass, whatever passes validation decodes. |
| `ParamCodec.DecodableValidates` | src/transaction/params.rs:13-49 | A decodable payload of the declared length passes if and only if it is bypassed, is a user-list reply, or repeats no user entry; a failure is always a duplicate of code 300. |
| `ParamCodec.EncodeParams` | src/transaction/params.rs:235-254 | The encoding loop gives the wire form, or refuses exactly when the count or a length needs more than 16 bits. |
| `ParamCodec.DecodeParamsMap` | src/transaction/params.rs:216-223 | The map has exactly the fields that occur, each with all its values in wire order. |
| `ParamCodec.ValuesJoin` | src/transaction/params.rs:216-223 | Collecting keeps every value and their order: two lists joined are collected one after the other, and a single parameter counts exactly for its own field. |
| `ParamCodec.FirstValueIsFirstOnWire` | src/transaction/params.rs:259-264 | The first collected value of a field is that of its first occurrence in the block. |
| `Series.FramePhaseIsGrammar` | src/transaction/reader/mod.rs:125-143 | The reader's frame phase returns `a` if and only if the stream starts with a well-formed series standing for `a`, for any limit. |
| `Series.SeriesIsRead` | src/transaction/reader/mod.rs:125-143 | Every well-formed series, whatever follows it, is read completely and nothing beyond it. |
| `Series.SeriesUnambiguous` | src/transaction/reader/mod.rs:125-143 | A stream stands for at most one transaction. |
| `Series.FirstFaultDecides` | src/transaction/reader/streaming.rs:59-71 | After any unfinished series, the next frame decides the error: changed header, empty or overlong piece, or early end at any byte. |
| `Series.OpeningFault` | src/transaction/reader/mod.rs:62-79 | Which error an opening frame is refused with, for every header and any bytes behind it. |
| `Series.Limits` | src/transaction/frame.rs:214-231 | In numbers: up to 32,768 bytes to a frame and 1,048,576 to a transaction, and not a byte more. |
| `Readers.ReadFrame` | src/transaction/frame.rs:214-231 | Reads one frame off the source or fails as the size checks say. |
| `Readers.TransactionReader.ReadTransaction` | src/transaction/reader/mod.rs:125-143 | The reassembly loop returns the frame phase's transaction, validated, leaves the source right behind it, and fails with the frame phase's or the validator's error. |
| `Readers.StreamingTransaction.NextFragment` | src/transaction/reader/streaming.rs:119-149 | One fragment is taken off the payload still ahead; offset, remaining and last flag stay in step; an error is the one the whole series has. |
| `Readers.TakeFragments` | src/transaction/reader/streaming.rs:119-149 | Taking fragments until none is left cuts the payload into consecutive pieces, flags exactly the last, and stops right behind the series. |
| `Readers.ReadStreaming` | src/transaction/reader/streaming.rs:205-220 | The streaming reader accepts, consumes and yields what the frame phase does, with the same errors. |
| `Fragments.FragmentsOf` | src/wireframe/codec/mod.rs:254-266 | Cutting loses nothing: the pieces concatenate to the payload, and there is at least one. |
| `Fragments.FragmentShape` | src/wireframe/codec/mod.rs:254-266 | Every piece repeats the header, all are full but the last, and that one is empty only for an empty payload. |
| `Fragments.FragmentCount` | src/wireframe/codec/mod.rs:254-266 | A non-empty payload takes its length over the frame size, rounded up, many pieces. |
| `Fragments.FragmentRanges` | src/wireframe/codec/mod.rs:254-266 | Range number i starts i frames in and is a full frame or what is left; there are as many ranges as frames are needed, rounded up. |
| `Fragments.FragmentsAreRead` | src/transaction/writer.rs:126-134 | A payload cut at any frame size is read back with its normalised header and nothing left over. |
| `Writer.ClampedFrame` | src/transaction/writer.rs:89-98 | The effective frame size is the acceptable one closest to the request. |
| `Writer.TransactionWriter.WriteFrame` | src/transaction/frame.rs:233-244 | Appends one frame whose data size is its chunk's length, or refuses a chunk whose length needs more than 32 bits and writes nothing. |
| `Writer.TransactionWriter.WriteTransaction` | src/transaction/writer.rs:112-137 | The loop appends exactly the frames of the payload, or nothing together with the reason. |
| `Writer.TransactionWriter.WriteStreaming` | src/transaction/writer.rs:148-190 | Copies exactly the declared number of bytes into frames; a source that runs short gives a size mismatch, with exactly the full frames it had bytes for on the wire. |
| `Fragments.WholeFramesBegin` | src/transaction/writer.rs:171-185 | Whatever a short source leaves on the wire is the beginning of what the complete payload would have produced. |
| `Writer.WrittenIsRead` | src/transaction/writer.rs:112-137 | A written transaction is read back normalised, at any frame size and any sufficient limit. |
| `Writer.WriteThenRead` | src/transaction/writer.rs:89-137 | Any list of accepted transactions, any frame-size setting: reading gives the list back, normalised, and leaves what follows. |
| `Writer.CopyThroughStream` | src/transaction/writer.rs:148-190 | Streaming any payload out and in again returns its bytes as consecutive fragments under the same header. |
| `TransactionCodec.HeaderRulesAgree` | src/wireframe/codec/mod.rs:203-251 | The codec's header rules accept exactly the headers the reader's rules accept, although they check in another order. |
| `TransactionCodec.BorrowDecode` | src/wireframe/codec/mod.rs:268-341 | The accumulating loop computes `Decoded` and consumes exactly its series. |
| `TransactionCodec.TakeContinuation` | src/wireframe/codec/mod.rs:288-327 | One continuation is checked and read in the codec's order. |
| `TransactionCodec.DecodedAgrees` | src/wireframe/codec/mod.rs:268-341 | The codec decodes exactly the streams of the grammar, to the same transaction and rest as the reader. |
| `TransactionCodec.OpeningRefused` | src/wireframe/codec/mod.rs:203-228 | Which error the codec gives for any opening header, in its numbers. |
| `TransactionCodec.ContinuationRefused` | src/wireframe/codec/mod.rs:230-327 | After any unfinished series, which error the next header gives: the first changed field, no data, too much of it, or an early end. |
| `TransactionCodec.Encode` | src/wireframe/codec/mod.rs:343-386 | The loop over the fragment ranges emits the frames of the payload, or the first failed check refuses it. |
| `MessageAssembly.MessageKeyInjective` | src/wireframe/message_assembly.rs:67-72 | Two headers share a message key if and only if reply bit, type and id agree. |
| `MessageAssembly.KeyIsBitwise` | src/wireframe/message_assembly.rs:67-72 | The model's key is the number the masked, shifted and bitwise joined fields make. |
| `MessageAssembly.FirstFramePayload` | src/wireframe/message_assembly.rs:95-138 | Builds the first-frame payload around the normalised header. |
| `MessageAssembly.ContinuationFramePayload` | src/wireframe/message_assembly.rs:145-164 | Builds the continuation payload with sequence and last flag. |
| `MessageAssembly.PayloadCursor.Take` | src/wireframe/message_assembly.rs:340-351 | Returns the next bytes and advances, or fails without moving. |
| `MessageAssembly.ParseFirstFrameHeader` | src/wireframe/message_assembly.rs:167-222 | The cursor parser of first frames computes its specification; its reads cannot run short. |
| `MessageAssembly.ParseContinuationFrameHeader` | src/wireframe/message_assembly.rs:225-262 | The same for continuation frames. |
| `MessageAssembly.ParseFrameHeader` | src/wireframe/message_assembly.rs:50-63 | Dispatch by tag, rejecting empty payloads and unknown tags. |
| `MessageAssembly.FirstIsParsed` | src/wireframe/message_assembly.rs:121-222 | A built first frame parses to its key, lengths, flag and logical header, unless its body outgrows the total, which is rejected. |
| `MessageAssembly.ContinuationIsParsed` | src/wireframe/message_assembly.rs:145-262 | A built continuation parses to its key, sequence, length and flag, and its body is recovered. |
| `MessageAssembly.ParsedIsBuilt` | src/wireframe/message_assembly.rs:167-284 | Whatever the parser accepts is an image of one of the builders. |
| `MessageAssembly.DamagedFirst` | src/wireframe/message_assembly.rs:167-222 | A first-frame payload cut anywhere, padded, or with other sizes in its logical header is refused with the error for that damage. |
| `MessageAssembly.DamagedContinuation` | src/wireframe/message_assembly.rs:225-262 | The same for continuations, a last flag beyond one included. |
| `MessageAssembly.UnknownPayload` | src/wireframe/message_assembly.rs:286-310 | Every tag beyond one is unknown, and no payload at all is short. |
| `FrameDecoder.TakeHotlineFrame` | src/wireframe/codec/physical_frame.rs:13-44 | Takes a complete valid frame off the buffer and leaves the buffer untouched otherwise. |
| `FrameDecoder.FrameInExtends` | src/wireframe/codec/physical_frame.rs:13-44 | A complete frame or a bad header is recognised whatever bytes arrive later. |
| `FrameDecoder.InboundSeriesTracker.Start` | src/wireframe/codec/frame.rs:144-171 | Opens a series exactly when bytes are still owed, keeping: emitted plus remaining is the total. |
| `FrameDecoder.InboundSeriesTracker.ContinueSeries` | src/wireframe/codec/frame.rs:174-219 | Advances, completes or clears the series as the source does, timeout included; keeps remaining positive, emitted plus remaining equal to the total and sequence plus remaining within it, so sequence overflow cannot happen. |
| `FrameDecoder.HotlineFrameDecoder.Decode` | src/wireframe/codec/frame.rs:64-83 | One decoding step: envelope, next tracker state and what is left of the buffer, for every state and buffer. |
| `FrameDecoder.HeaderFault` | src/wireframe/codec/physical_frame.rs:13-44 | What the decoder makes of any header, in its numbers: the first broken rule, a wait, or the frame. |
| `FrameDecoder.ContinuationFrame` | src/wireframe/codec/frame.rs:174-219 | Every sound frame behind an open series: a foreign one is reported by its first changed field and leaves the series open, an overlong one ends it, any other continues or completes it. |
| `FrameDecoder.LateFrame` | src/wireframe/codec/frame.rs:225-239 | Any frame after the deadline of an open series fails as timed out, is dropped, and leaves the decoder idle. |
| `FrameDecoder.NoDeadline` | src/wireframe/codec/frame.rs:64-83 | The deadline means nothing to an idle decoder or before a frame is complete. |
| `FrameDecoder.PieceAddress` | src/wireframe/codec/frame.rs:74-78 | A piece carries the id of its frame, and its type as route if it is one of the ten routed types, else zero. |
| `FrameStream.PumpExtends` | src/wireframe/codec/frame.rs:64-83 | Decoding a buffer and then more bytes is decoding them together. |
| `FrameStream.ChunkInvariance` | src/wireframe/codec/frame.rs:64-83 | Any two ways of cutting a byte stream give the same outputs, the same first error and, without one, the same final state. |
| `FrameStream.CollectAgrees` | src/wireframe/codec/frame.rs:144-219 | The decoder completes a series exactly where the reader completes a transaction, at the same byte; its pieces, as parsed, are numbered 1, 2, 3, ..., flagged last exactly at the end, and carry the reader's header and payload. |
| `FrameStream.ServedAfterDeadline` | src/wireframe/codec/frame.rs:225-239 | Whatever well-formed series comes behind a late frame is read as by a fresh decoder. |
| `HotlineCodec.Codec.Decode` | src/wireframe/codec/framed.rs:132-160 | One decoding step of the buffered codec, including its early "nothing" after a fragment and its state after each error. |
| `HotlineCodec.Codec.DecodeEof` | src/wireframe/codec/framed.rs:162-173 | One step at end of input; `BurstHeardIff` says what its calls come to. |
| `HotlineCodec.Codec.Encode` | src/wireframe/codec/framed.rs:179-228 | Appends the frames of a transaction behind what the buffer held, without comparing sizes. |
| `HotlineCodec.RunCodecAgrees` | src/wireframe/codec/framed.rs:75-160 | Up to 32 KiB the codec returns what the validated reader returns, with its error; above, it rejects every transaction; where the reader fails, it fails. |
| `HotlineCodec.CodecMatchesReader` | src/wireframe/codec/framed.rs:75-83 | Among accepted transactions the codec agrees if and only if the total is at most 32 KiB. |
| `HotlineCodec.LargeRequestRejected` | src/wireframe/codec/framed.rs:75-83 | Any file-list request of 40,000 bytes is accepted by the reader and rejected by the codec. |
| `CodecReads.FramesIn` | src/wireframe/codec/physical_frame.rs:13-44 | Every buffer is a list of sound frames followed by a tail that holds no complete frame. |
| `CodecReads.ReadDeliversAllIff` | src/wireframe/codec/framed.rs:132-160 | From every state, one read delivers all its buffer stands for if and only if its frames do not stall it: no opening frame after only whole, valid ones has another frame or a bad header behind it, and an open reassembly is not left open with more behind its next frame. |
| `CodecReads.IdleDeliversAllIff` | src/wireframe/codec/framed.rs:150-156 | From idle: if and only if there is no such opening frame. |
| `CodecReads.StepKeepsPartial` | src/wireframe/codec/framed.rs:85-119 | Between calls an open reassembly has a valid header and still owes bytes. |
| `CodecReads.BadContinuation` | src/wireframe/codec/framed.rs:85-119 | A frame that does not continue the open transaction is reported and dropped, and the transaction stays open. |
| `CodecReads.FragmentedSeriesStalls` | src/wireframe/codec/framed.rs:150-156 | A read that brings a whole series of several frames takes its first frame and nothing else, whatever follows. |
| `CodecReads.BurstHeardIff` | src/wireframe/codec/framed.rs:132-173 | A burst of well-formed transactions, read in one go and closed, comes out complete and without error if and only if each fits 32 KiB and passes its checks and at most one frame of them all is a continuation. |
| `CodecReads.SeriesHeardIff` | src/wireframe/codec/framed.rs:162-173 | One such series comes out if and only if it has at most two frames, at most 32 KiB, and a valid payload. |
| `CodecReads.LongSeriesLost` | src/wireframe/codec/framed.rs:162-173 | Every complete series of three or more frames, read in one go and closed, is reported as incomplete. |
| `CodecReads.UnfinishedAtClose` | src/wireframe/codec/framed.rs:162-173 | At the close an open reassembly or the beginning of a frame is an error, and an idle codec with an empty buffer just ends. |
| `CodecReads.ThreeFramesLost` | src/wireframe/codec/framed.rs:132-173 | A three-frame request that the reader accepts, no read delivers, and the close reports as incomplete. |
| `HotlineCodec.CodecOutputReadable` | src/wireframe/codec/framed.rs:179-228 | The codec's output reads back as the transaction if and only if its total size is its payload's length. |
| `HotlineCodec.DishonestTotal` | src/wireframe/codec/framed.rs:179-228 | One byte under a total of two is encoded, and no reader can read the result. |
| `HotlineCodec.FragmentersAgree` | src/wireframe/codec/framed.rs:179-228 | How the acceptance of the three fragmenters differs, and that they emit identical bytes whenever they accept. |
| `HotlineCodec.RefusalReasons` | src/transaction/writer.rs:112-120 | Why each of the three fragmenters refuses a transaction, in its numbers and in the order each checks. |
| `HotlineCodec.ConstructionFault` | src/wireframe/codec/mod.rs:152-189 | Why given parts or a given transaction are refused, in header numbers. |
| `HotlineCodec.ParamsMakeTransaction` | src/wireframe/codec/mod.rs:108-129 | A transaction is made from parameters if and only if flags, size and repeats allow it, and carries no payload for none and their block otherwise. |
| `HotlineCodec.ConstructedHonest` | src/wireframe/codec/mod.rs:60-189 | Parameters, parts, conversion and decoding all yield zero flags and a total size equal to the payload length. |
| `Compat.DetectXor` | src/wireframe/compat.rs:114-134 | The flag loop detects exactly: some text is not UTF-8 as sent, and all of it is once complemented. |
| `Utf8.ValidIff` | src/wireframe/compat.rs:119-131 | Text counts as UTF-8 if and only if it is what some Unicode scalar values are written as. |
| `Compat.XorIsComplement` | src/wireframe/compat.rs:149-149 | The model's complement of a byte is the bitwise exclusive or with 0xFF. |
| `Compat.XorCompatibility.DecodePayload` | src/wireframe/compat.rs:71-93 | Decodes a payload and switches the mode on exactly on detection; errors leave the mode alone. |
| `Compat.XorCompatibility.EncodePayload` | src/wireframe/compat.rs:101-111 | Returns the payload untouched while the mode is off and with its text fields complemented while it is on; only the latter can fail. |
| `Compat.OutboundThenInbound` | src/wireframe/compat.rs:71-111 | With the mode on, every decodable payload is encoded at its own length, decoded back to itself, and encoding is its own inverse. |
| `Compat.CodesRewritten` | src/wireframe/compat.rs:71-167 | In codes: with the mode on, the values under the twelve text codes are complemented and nothing else changes; with it off, exactly that happens to an inbound block whose text is not UTF-8 as sent but is once complemented, and switches the mode on. |
| `Compat.UndecodableRefused` | src/wireframe/compat.rs:71-111 | A payload that does not decode is refused with the decoder's error in either direction, but for an outbound one while the mode is off. |
| `Compat.XorClientStep` | src/wireframe/compat.rs:71-93 | One payload of an XOR client is decoded, and the mode switched on, exactly when the mode was on or the payload gives the client away. |
| `Compat.XorClientRun` | src/wireframe/compat.rs:71-93 | Over every run of an XOR client, empty payloads included, payloads pass unchanged up to the first revealing one and are decoded to plaintext from it on. |
| `Compat.PlainClientRun` | src/wireframe/compat.rs:71-93 | A client sending only UTF-8 or empty payloads is never altered over any run. |
| `Compat.XorClientUnderstoodIff` | src/wireframe/compat.rs:71-93 | An XOR payload arrives as its plaintext if and only if the mode is on, it reveals the client, or its text is all empty. |
| `Compat.LeadingLetterReveals` | src/wireframe/compat.rs:114-134 | Text opening with any byte from 0x3E to 0x7F, letters included, always reveals the client. |
| `Compat.MissedDetection` | src/wireframe/compat.rs:114-134 | A concrete text that is UTF-8 both ways and goes undetected. |
| `Protocol.ParseInvertsToBytes` | src/transaction/frame.rs:177-211 | A serialised transaction parses back to itself if and only if it is valid and within the limit, and whatever parses is restored by serialising. |
| `Protocol.ParseFault` | src/transaction/frame.rs:177-200 | Why a buffer is no transaction: too large, of another length than it says, or invalid. |
| `Protocol.BeforeSend` | src/wireframe/protocol.rs:134-152 | The hook rewrites the frame in place to `Sent`. |
| `Protocol.SentInvolution` | src/wireframe/protocol.rs:134-152 | On all byte frames the hook is a length-preserving involution, leaves unparseable frames alone, and keeps parseable ones parseable under the same header. |
| `CompatPolicy.ClientCompatibility.AugmentLoginReply` | src/wireframe/compat_policy/mod.rs:119-149 | The stepwise augmentation computes result and reply, including the reply left behind by each error. |
| `CompatPolicy.AugmentedDecodes` | src/wireframe/compat_policy/mod.rs:119-149 | A changed reply decodes to the original parameters followed by the missing extras, and both header sizes are the payload length. |
| `CompatPolicy.KindIff` | src/wireframe/compat_policy/mod.rs:82-91 | The classification in version numbers. |
| `CompatPolicy.AugmentedIff` | src/wireframe/compat_policy/mod.rs:119-157 | In numbers: a reply is changed if and only if it is a reply of type 107 with error 0 to a client of version 151 or later that is not of sub-version 2, decodes, lacks code 161 or 162, and fits when extended; it then gains four zero bytes under 161, "mxd" under 162, or both, in that order. |
| `CompatPolicy.UntouchedReplies` | src/wireframe/compat_policy/mod.rs:119-149 | An unchanged reply is returned as it was, and what each error leaves behind: the reply itself, or, beyond 32 bits, the extended payload under the old header. |
| `CompatPolicy.AugmentIdempotent` | src/wireframe/compat_policy/mod.rs:119-149 | Augmenting a second time changes nothing. |
| `Allocator.NextAvailable` | src/presence.rs:292-305 | The bounded loop computes the search. |
| `Allocator.SearchFinds` | src/presence.rs:298-303 | The search returns the first free id on the cursor's cyclic path, having met only active ids before it. |
| `Allocator.SearchComplete` | src/presence.rs:292-305 | The search fails if and only if all 65,535 ids are active, and then leaves the cursor where it was. |
| `Allocator.SearchPasses` | src/presence.rs:298-303 | A successful search takes the cursor over exactly the ids up to the one it returns, and all before it are active. |
| `Allocator.AllocationFair` | src/presence.rs:292-305 | In any sequence of allocations an id comes round again only after the cursor has gone over every other id, each handed out or found active by the search that went over it. |
| `Presence.PresenceRegistry.Upsert` | src/presence.rs:113-123 | Assigns or keeps the id, stores the snapshot and returns the peers, as one function of the old state. |
| `Presence.PresenceRegistry.Remove` | src/presence.rs:127-135 | Removes a registered connection and returns the remaining peers. |
| `Presence.UpsertFailsIff` | src/presence.rs:280-305 | Upsert fails if and only if the connection is new and all ids are active; a failed call changes neither snapshots nor cursor. |
| `Presence.UpsertKeeps` | src/presence.rs:113-123 | Upsert keeps the invariant and existing ids, gives a new connection an id nobody holds, and leaves every other entry alone. |
| `Presence.RemoveKeeps` | src/presence.rs:127-135 | Removal keeps the invariant and drops exactly one entry. |
| `Presence.PeersAre` | src/presence.rs:262-278 | Exactly the other registered connections are notified, in ascending order. |
| `Presence.OnlineStrictlyAscending` | src/presence.rs:139-142 | The public list has every registered snapshot once, strictly ascending by presence id. |
| `Presence.LookupIsUnique` | src/presence.rs:151-159 | Lookup finds the one holder of an id; there are never two to choose from. |
| `PresenceWire.ListEntryRead` | src/presence.rs:55-63 | A packed entry is read back to id, icon, flags and name. |
| `PresenceWire.ListBuiltIff` | src/presence.rs:173-190 | The reply is refused if and only if some name exceeds 65,527 bytes, with the error of its entry beyond 65,535 and of the block up to there; it panics if and only if the names fit and the list needs more than 32 bits; otherwise it is built at exactly two bytes plus twelve and the name for every user. |
| `PresenceWire.ListSentIff` | src/wireframe/codec/frame.rs:101-110 | The reply gets through hook and encoder if and only if the names fit and the list is at most 1 MiB. |
| `PresenceWire.ListIsRead` | src/presence.rs:173-190 | A client reading the reply's payload knows exactly the registered users. |
| `PresenceWire.ListArrives` | src/presence.rs:173-190 | A client that reads the reply off the wire, in either XOR mode, knows exactly the registered users; the reply carries the type and id of its request and error 0. |
| `PresenceWire.ListInCodes` | src/presence.rs:55-63 | The list payload in codes and bytes: one entry under 300 for every user, in order. |
| `PresenceWire.ChangeIsNoticed` | src/presence.rs:197-205 | A change notice can be built if and only if the name fits 16 bits, and a client reading it sets exactly that user's entry. |
| `PresenceWire.DeleteIsNoticed` | src/presence.rs:212-219 | A departure notice can always be built, and a client reading it removes exactly that user. |
| `PresenceWire.NoticesParse` | src/presence.rs:241-255 | Every notice, serialised, parses back as a valid transaction. |
| `PresenceWire.NoticesArrive` | src/presence.rs:197-219 | Every notice goes through hook and encoder and is read off the wire as it was, in either XOR mode. |
| `PresenceWire.NoticesInCodes` | src/presence.rs:65-74 | The notices in numbers: type 301 with codes 103, 104, 112 and 102, and type 302 with code 103. |
| `PresenceWire.I32InBytes` | src/presence.rs:65-74 | A user id is written big-endian, a negative one in two's complement. |
| `Replica.RunRegistry` | src/presence.rs:113-135 | The registry reached by any run of publishes and departures is consistent. |
| `Replica.RunKeepsId` | src/presence.rs:280-290 | A connection keeps its id for as long as it stays registered. |
| `Replica.ReplicaFollows` | src/presence.rs:262-278 | A peer's mirrored list stays a mirror through any run in which it stays connected. |
| `Replica.ReplicaConsistency` | src/wireframe/outbound.rs:134-144 | After any history, a peer that reads the list reply off the wire and applies the notices addressed to it holds exactly the other registered users, reused ids included. |
| `Replica.RunAllocates` | src/presence.rs:280-305 | The ids any registry run hands out form an allocation sequence of the cursor. |
| `Replica.PresenceIdsFair` | src/presence.rs:280-305 | Over any registry run no id is reused before the cursor has gone over every other id, each handed out or found active on the way. |
| `Sessions.Session.ApplyLogin` | src/handler.rs:152-164 | Login resets the whole visible state and picks the phase by the agreement privilege. |
| `Sessions.LoginPhase` | src/handler.rs:151-171 | A login asks for the agreement if and only if privilege bit 27 is missing. |
| `Sessions.SnapshotIff` | src/handler.rs:173-199 | Any session is shown if and only if someone is logged in, online and holds privilege bit 13, and marked as an administrator if and only if one of six bits is held. |
| `Sessions.Session.ApplyUserInfoUpdate` | src/commands/handlers.rs:261-279 | The field-by-field update computes the updated session. |
| `Sessions.ProcessLoginWithPresence` | src/commands/handlers.rs:83-117 | Session, registry, notice and success of a login, for every outcome of lookup, password check and reply. |
| `Sessions.ProcessSetClientUserInfo` | src/commands/handlers.rs:179-224 | The same for an info update, including the early exits that leave the registry behind. |
| `SessionRuns.Run` | src/handler.rs:118-199 | After every run of connects, logins, updates and departures the world invariant holds. |
| `SessionRuns.EveryRun` | src/handler.rs:151-199 | Response text exists only while its flag is set; being online is being logged in, and no session is ever left waiting for the agreement; a registered connection is connected, logged in and visible. |
| `SessionRuns.UserIsLatestLogin` | src/login.rs:49-67 | A session's account is that of its latest successful login since it connected. |
| `SessionRuns.GuardRunsIff` | src/commands/support.rs:75-89 | A guarded body runs if and only if the latest login succeeded and the granted privileges cover the demand; otherwise the error says which failed. |
| `SessionRuns.ProfileIsLatest` | src/commands/handlers.rs:261-279 | After every run name, icon, flags and response text are what was last written to them. |
| `SessionRuns.ErrorFreeInSync` | src/commands/handlers.rs:179-224 | After any error-free login or update the registry entry shows the session's name, icon and flags, or nobody is logged in and there is none. |
| `SessionRuns.ServedOkIff` | src/commands/handlers.rs:83-117 | Over every run, a login or update ends without error if and only if it is answered and either nobody is logged in afterwards or the name then in force fits a notice and the connection has an id or some id is free. |
| `SessionRuns.LoginOkIff` | src/commands/handlers.rs:103-117 | An accepted, answered login succeeds if and only if its name has fewer than 65,536 bytes and the connection is registered or one of the ids 1 to 65,535 is free. |
| `SessionRuns.ServedPublishes` | src/commands/handlers.rs:179-224 | Over every run, such an event stores the latest account, name and icon of the connection in the registry, or changes nothing, and exactly when. |
| `SessionRuns.RegistryIsHistory` | src/commands/handlers.rs:83-117 | The registry of every run is that of a history of publishes and departures. |
| `SessionRuns.ServerReplicaConsistency` | src/commands/handlers.rs:119-138 | Over every run of the server, a visible connection that reads the user list off the wire and applies the notices pushed to it knows exactly the other registered users. |
| `ListLimits.CrowdListedIff` | src/presence.rs:173-190 | After any number of logins under one name the list can be sent if and only if the name fits an entry and the entries fit 1 MiB, and panics if and only if they need more than 32 bits. |
| `ListLimits.NamesFitListDoesNot` | src/header_util.rs:18-34 | Seventeen users with fitting names whose list cannot be sent, and 65,535 whose list panics. |
| `ListLimits.LongNameBlocksList` | src/presence.rs:55-63 | A login and a rename to 65,528 bytes after which the notice can be built and the list cannot. |
| `Articles.ArticleStore.CreateRootArticle` | src/db/articles.rs:71-86 | Find last, insert, relink as one transaction; a failed path lookup changes nothing. |
| `Articles.ArticleStore.LinkPrevToNew` | src/db/articles.rs:149-161 | Sets the `next` link of one row. |
| `Articles.LastRootIs` | src/db/articles.rs:88-102 | The last root is an article of the category without a parent, and none such has a higher id; replies do not count. |
| `Articles.LastOfChain` | src/db/articles.rs:88-102 | The row with the highest id is the end of the category's chain. |
| `Articles.PostExtends` | src/db/articles.rs:71-124 | A post extends its category's chain by one at the end. |
| `Articles.PostLeavesOthers` | src/db/articles.rs:71-124 | A post leaves every row of every other category as it was. |
| `Articles.PostStores` | src/db/articles.rs:103-124 | A post stores its own content and keeps every old row as it was, but for the next link of the root before it. |
| `Articles.ContentKept` | src/db/articles.rs:71-124 | Whatever is posted later, an article keeps its content. |
| `Articles.RootsFormChains` | src/db/articles.rs:71-124 | After any sequence of posts each category's roots form one ascending doubly linked chain in posting order. |
| `Articles.LinksInverse` | src/db/articles.rs:149-161 | In a chain `next` and `prev` are inverse and `next` ascends, so there is no cycle. |
| `Articles.WalkVisitsAll` | src/db/articles.rs:71-86 | Following `next` from the first root visits every root once, in posting order, and stops. |
| `Pipeline.ConsumersAgree` | src/wireframe/codec/frame.rs:64-83 | On every byte string all consumers recognise the same transactions at the same byte; the buffered codec does so up to 32 KiB and rejects larger ones. |
| `Pipeline.PiecesParse` | src/wireframe/message_assembly.rs:113-138 | The pieces of a series, reassembled, parse as the transaction itself. |
| `Pipeline.InboundPipeline` | src/wireframe/codec/frame.rs:64-83 | Whatever a writer sends at any frame size reaches the router as that transaction. |
| `Pipeline.StreamDelivered` | src/wireframe/codec/frame.rs:64-83 | Any list of written transactions, any frame size, any chunking: one group of pieces each, in order, no error, and the decoder ends idle and empty. |
| `Pipeline.OutboundPipeline` | src/wireframe/codec/frame.rs:101-110 | Whatever valid transaction the server sends, through hook, envelope and encoder, a reader gets its header, and its payload once the XOR is undone. |
| `Pipeline.SentIsRead` | src/wireframe/codec/frame.rs:101-110 | A transaction with zero flags gets through if and only if it is valid and within 1 MiB, and then a client in the same mode reads it. |

## Left out

- Tokio I/O, timeouts and deadlines: streams are byte sequences, and an elapsed series deadline is a flag passed to the tracker; chunk invariance and agreement are about runs without timeouts.
- The wireframe crate (envelope bytes, assembler, push queues, session registry), bincode and `BytesMut`: envelopes are values and reassembly is concatenation. Hook and encoder share one frame type; the model takes it that the hook sees the serialised transaction and that an envelope is wrapped around it before the encoder strips one.
- Delivery of notices: replica consistency assumes that pushes are neither lost nor reordered; retries and queue limits are not modelled.
- Error texts: errors are constructors, one for each distinct message.
- Password hashing, user lookup and the database: a login comes with the outcome of its check, and a post with the outcome of its path lookup and a fresh id.
- News and file paths, bundles, categories and reply articles: path lookup depends on SQL engine semantics.
- The legacy runtime's connection loop: departures follow the wireframe adapter.
- Readers.ByteSource.ReadExact: an early end leaves the source empty; what a transport would still hold is not modelled.
- Readers.ReadFrame: does not say where the source stands after an error, because callers give the connection up then.
- Readers.TransactionReader.ReadTransaction: the same.
- Readers.ReadStreaming: the same.
- TransactionCodec.BorrowDecode: the same.
- TransactionCodec.TakeContinuation: the same.
- FrameDecoder.HotlineFrameDecoder.Decode: yields the envelope as a value; its serialisation, and the error that could give, belong to the wireframe crate.
- The calls of the framed transport are those of tokio-util's `Framed`: decode until nothing comes after a read, decode_eof until nothing comes after the close.
- Command parsing, the agreement flow, client-version recording, privilege bit names and routing tables: they turn payload fields and codes into values one by one, and those values are parameters here.
- CLI, configuration, the validator and test utilities: they do not take part in what the server does on the wire.
