# AudioMixer, verified

A Dafny model of the parts of AudioMixer that are hardest to get right, with proofs for all
inputs and all runs:

- **The proxy cache of the Djinni support library.** `ProxyCacheProtocol.dfy` is a state machine
  of everything that can happen around `ProxyCache::Pimpl`: calls of `get` and `remove` under the
  mutex, statement by statement, interleaved with weak references that expire, references that
  are copied, dropped, freed and reused, and Handles that are destroyed, whether or not their
  proxy is still live. A reference stands for an
  address (C++ objects) or a JNI reference (Java objects), and keys compare by what they denote
  *now*, so a dangling key or a reused address would show. `ProxyCacheRefinement.dfy` has the
  specification ("return the live proxy if there is one, else a fresh one") and the refinement,
  `ProxyCache.dfy` the two operations as code with interference between statements, and
  `LanguageBoundary.dfy` the calls of `_toJava` and `_fromJava`, on any number of threads and
  stage by stage, over two such caches. `ExplicitDestroy.dfy` shows what a Handle destroyed too
  early does to all this.
- **UTF-8 and UTF-16 transcoding.** `Utf8.dfy`, `Utf16.dfy` and `Transcoding.dfy`, against
  RFC 3629 and RFC 2781. Strings may be read at index `length`, where the terminator is, and no
  further; reading beyond would not verify.
- **The audio pull pipeline.** `AudioFileDecoder.dfy` (demuxer, codec, FIFO), `AudioFileSource.dfy`
  (fixed-size chunks), `ChunkTiming.dfy` (which frame sizes are safe), `AudioResampler.dfy` (sample counts), `AudioRecordSource.dfy` (recorded
  audio) and `AudioMixer.dfy` (the registry of sources and the size of a mix).

`Sequences.dfy` holds what several of these share. Each audio component is a function on values,
about which the theorems are proved, and a class with the source's loops and fields, whose
methods are proved equal to that function.

## Foreign code

- A codec is any pair of functions that keeps the contract documented for `avcodec_send_packet`
  and `avcodec_receive_frame`: what it does depends only on the packets accepted and the frames
  given out; accepting a packet takes no frame back; and it never refuses a packet when it has
  no frame to give. `frames` is what it can give out without a flush, since the program never
  flushes.
- A file is the list of its packets; reading fails exactly at its end. The FIFO is a sequence,
  as `audio_fifo.h` promises.
- `swr_convert` appears as the number it returns; the WebRTC mixer as the set of pointers it was
  given. `av_samples_get_buffer_size` is the product of its arguments, or a negative error code
  if one of them is not positive or the product is not an int.
- Proxies and source objects are identities that are never reused. References are.

## Where code and documentation differ

- The proxy cache relies on ~Handle running only after its proxy has expired; the comment in
  `remove` says so. `AudioMixer.destroy()` destroys the Handle of a Java proxy that it goes on
  holding. Its `remove` then finds its own proxy live and keeps the entry, whose key has no owner
  from then on. `ExplicitDestroy.DestroyedProxyComesBack` is a run in which the key dangles, the
  map is not empty although no Handle is left, and a call for a new object at the old address
  gets the destroyed proxy of the old one; `LanguageBoundary.DestroyedProxyFails` one in which
  passing the destroyed proxy back reads a freed Handle. `ProxyCacheRefinement.KeysOwnedIff` is
  the exact condition: keys keep their owners if and only if no ~Handle finds its own proxy live
  at `is_expired`. What the cache promises is proved under it (`Orderly`), and what does not need
  it for all runs.
- RFC 3629 section 3 forbids the three-byte spellings of U+D800..U+DFFF. The decoder accepts
  them. `Utf8.AcceptsExactly` says that this is the only difference from the grammar,
  `Transcoding.ToUtf16IsOnto` what follows — every UTF-16 string, ill-formed ones included, can
  come out — and `Transcoding.ToUtf16IsWellFormedIff` from which bytes well-formed UTF-16 comes.
- `Consume` counts two bytes per sample whatever the format. `FileChunks.ReadsAreChunks` shows
  that reads deliver the chunks of the file just in two-byte formats. In wider ones
  no read of any file succeeds (`FileChunks.WideFormatsNeverRead`). In one-byte ones a whole
  chunk never arrives, but half a chunk passes as a whole one whose other half is left over from
  before (`FileChunks.OneByteReads`, `FileChunks.HalfAChunkPasses`).
- A pull can fall short although the file has more: see `DecoderPump.EarlyEnd`. It cannot if every
  decoded frame but the last is at least a chunk long. In general the reads of a run are the
  chunks of the file if and only if the codec has accepted each chunk's packets by the time of
  its read (`FileChunks.ReadsAreChunksIff`), and `ChunkTiming.SafeFramesIff` says for which frame
  sizes that is so with every codec. What a short read took is dropped, and no read
  delivers it (`FileChunks.ShortReadIsDropped`, and for an example `FileChunks.EarlyEndThenMore`).
- The user documentation asks for 10 ms frames; the constructor admits any duration up to that.
  With shorter frames a record source copies more than it removes and may read past the recorded
  data: `RecordBuffer.NeverOverreadsIff`, `RecordBuffer.FiveMillisecondsOverread`.
- Also at 10 ms a record source loses elements where the rate is not a multiple of 100 and the
  remainders of all channels add up to one: `RecordBuffer.FramesPartitionIff`. At 22050 Hz stereo
  it loses one per pull, and the channels change places: `RecordBuffer.StereoDrifts`.
- `AudioMixer::Mix` passes the size it computed to memcpy unchecked. With less than one sample
  per frame, no channel, or a size beyond an int, it is an error code, and as a size it is huge:
  `SourceRegistry.MixStaysInFrameIff`, `SourceRegistry.MixOverrunsAt99Hz`.
- A converter that yields no samples counts as an error, since a buffer of no samples has no
  size: `AudioResampler.ResampledSizeIsErrorIff`.
- `AudioMixer::AddSource` with an ssrc that is taken leaves the WebRTC mixer with a pointer to an
  object that is destroyed on return. The constructor does not have this problem:
  `SourceRegistry.OpenIsExact`, `SourceRegistry.ExactIffFresh`.
- The converter may be asked for more samples than the frame reports:
  `AudioResampler.RequestCanExceedReport`, and exactly when, `AudioResampler.RequestFitsIff`.

## Model

| member | source | states |
|---|---|---|
| `ProxyCacheProtocol.StepKeepsBase` | djinni/support-lib/proxy_cache_impl.hpp:79-120 | every step whatsoever keeps: existing Handles own valid references, calls keep their reference, their pinned proxy and their Handle, and nothing live is about to be erased |
| `ProxyCacheProtocol.StepKeepsInv` | djinni/support-lib/proxy_cache_impl.hpp:79-120 | every step of get, remove, expiry, reference reuse or Handle release, but for a ~Handle that finds its own proxy live, keeps: each key is owned by the Handle of its own proxy, equal keys are one entry, every live proxy is cached |
| `ProxyCacheProtocol.FindingItselfLiveLosesKey` | djinni/support-lib/proxy_cache_impl.hpp:116-118 | that one step always leaves a key whose cleanup is past removing it |
| `ProxyCacheRefinement.KeysOwnedIff` | djinni/support-lib/proxy_cache_impl.hpp:106-118 | over every run, all keys have had their owners throughout if and only if no ~Handle found its own proxy live |
| `ExplicitDestroy.DestroyLiveLeavesKey` | android_project/AudioMixer/src/main/java/com/github/piasy/audio_mixer/AudioMixer.java:61-63 | from any state where all keys are owned, destroying the Handle of any live proxy leaves its entry behind, with no owner |
| `ExplicitDestroy.ReuseFindsDestroyed` | djinni/support-lib/proxy_cache_impl.hpp:84-88 | once the reference of such a key is freed the key dangles, and when it is reused for any object get() answers with the destroyed proxy |
| `ExplicitDestroy.DestroyedProxyComesBack` | generated_src/jni/NativeAudioMixerApi.cpp:16-22 | a run from the empty cache to a dangling key, a map that is not empty with all Handles gone, and a call about to return the proxy of another object |
| `ProxyCacheRefinement.LiveIsUnique` | djinni/support-lib/proxy_cache_impl.hpp:56-60 | a tag and object have at most one live proxy |
| `ProxyCacheRefinement.AllocIsRight` | djinni/support-lib/proxy_cache_impl.hpp:84-96 | when get() allocates, no live proxy for that tag and object exists, in spite of expiry between its statements |
| `ProxyCacheRefinement.ReturnIsRight` | djinni/support-lib/proxy_cache_impl.hpp:86-97 | what get() returns is the one live proxy of the very object it was called for |
| `ProxyCacheRefinement.StepRefines` | djinni/support-lib/proxy_cache_impl.hpp:79-120 | each step is a step of the specification: nothing, a fresh proxy where there was none, the return of the one live proxy, or the death of one |
| `ProxyCacheRefinement.RunRefines` | djinni/support-lib/proxy_cache_impl.hpp:79-120 | every run, in every interleaving, satisfies the invariant and is a run of the specification, as long as no ~Handle has found its own proxy live |
| `ProxyCacheRefinement.SameProxyWhileLive` | djinni/support-lib/proxy_cache_interface.hpp:42-46 | two calls for the same tag and object anywhere in an orderly run return the same proxy if the first is still live |
| `ProxyCacheRefinement.RunKeeps` | djinni/support-lib/proxy_cache_impl.hpp:106-118 | over any stretch of any run, orderly or not, proxies keep their identity and what is not live never becomes live again |
| `ProxyCacheRefinement.LiveEntriesStay` | djinni/support-lib/proxy_cache_impl.hpp:106-118 | in any run, orderly or not, no cleanup, however late and in whatever order, removes the entry of a live proxy |
| `ProxyCacheRefinement.KeysNeverDangle` | djinni/support-lib/jni/djinni_support.hpp:263-268 | in every state of every orderly run each key is a valid reference, the one its own proxy's Handle owns, and denotes that proxy's object |
| `ProxyCacheRefinement.QuiescentIsEmpty` | djinni/support-lib/proxy_cache_impl.hpp:103-120 | with no cleanup outstanding the map is empty, in every orderly run |
| `ProxyCacheRefinement.LockIsReleased` | djinni/support-lib/proxy_cache_impl.hpp:79-120 | each step of the mutex holder brings it closer to release, within six steps, and no one else's step sets it back |
| `ProxyCacheRefinement.HolderCanStep` | djinni/support-lib/proxy_cache_impl.hpp:79-120 | the mutex holder always has a step to take |
| `ProxyCache.Pimpl.Get` | djinni/support-lib/proxy_cache_impl.hpp:79-98 | called at any moment, whoever holds the mutex, with others acting while it waits and between all its statements, get() returns a live proxy, which was live when the call began or did not exist then, and takes no live proxy's entry away; it is the one live proxy of the object if keys were owned and no ~Handle found itself live meanwhile |
| `ProxyCache.Pimpl.Wait` | djinni/support-lib/proxy_cache_impl.hpp:82-104 | a call blocked on the mutex gets it: other calls begin, run and end meanwhile, its references stay valid and its Handle stays undestroyed |
| `ProxyCache.Pimpl.Remove` | djinni/support-lib/proxy_cache_impl.hpp:103-120 | called at any moment and for any proxy, live ones included; live proxies keep their entries; a stray entry of its own is left only if the proxy was live, and then its key has no owner; otherwise the proxy has no entry |
| `ProxyCache.Pimpl.Check` | djinni/support-lib/proxy_cache_impl.hpp:44-45 | is_expired: the invariant survives unless the entry is the caller's own and live |
| `ProxyCache.Pimpl.Upgrade` | djinni/support-lib/proxy_cache_impl.hpp:40-45 | upgrade_weak either pins the live proxy for the rest of the call or finds it expired for good |
| `ProxyCache.Pimpl.Insert` | djinni/support-lib/proxy_cache_impl.hpp:96-97 | emplace adds the entry under the key that the allocator returned, or leaves the map alone if an equal key is there; with all keys owned the new proxy is cached |
| `ProxyCache.Pimpl.UnlockAfterRemove` | djinni/support-lib/proxy_cache_interface.hpp:137-145 | the Handle's reference is still owned when cleanup ends, and only then up for release; the map is as remove() left it |
| `LanguageBoundary.NextKeepsOk` | djinni/support-lib/jni/djinni_support.hpp:371-413 | every stage of every call and every step of both caches, but a ~Handle that finds its own proxy live, keeps: Handles are for plain objects only, the call under the mutex is for an object found plain before it, and finished calls hold the right result |
| `LanguageBoundary.NoCallFails` | djinni/support-lib/jni/djinni_support.hpp:320-331 | in an orderly history no call reads a Handle that is gone |
| `LanguageBoundary.DestroyedProxyFails` | djinni/support-lib/jni/djinni_support.hpp:403-408 | from any world that was orderly so far, destroying the Handle of any live proxy and passing the proxy back makes the call read a Handle that is gone |
| `LanguageBoundary.FromJavaOfToJava` | djinni/support-lib/jni/djinni_support.hpp:371-413 | a finished call _fromJava(j), where j came out of a finished call _toJava(c), yields c, in every orderly history and on whatever threads, while c is reachable |
| `LanguageBoundary.ToJavaOfFromJava` | djinni/support-lib/jni/djinni_support.hpp:371-413 | a finished call _toJava(c), where c came out of a finished call _fromJava(j), yields the Java object j, in every orderly history while j is reachable |
| `LanguageBoundary.SameResultWhileReachable` | djinni/support-lib/jni/djinni_support.hpp:364-386 | in an orderly history, passing the same object twice gives the same result while the first one is reachable |
| `LanguageBoundary.DoneIsRight` | djinni/support-lib/jni/djinni_support.hpp:371-413 | in an orderly history the result of a finished call is null for null, the wrapped object for a proxy, and otherwise the live proxy of the object |
| `LanguageBoundary.EnteredFor` | djinni/support-lib/jni/djinni_support.hpp:371-413 | until it returns to its caller a call is for the object it was entered with, through all its stages and whatever else happens |
| `LanguageBoundary.NoProxyOfProxy` | djinni/support-lib/jni/djinni_support.hpp:426-475 | no Handle in any orderly history is for a proxy, in either direction, although the test for a proxy precedes the lock and other threads run in between |
| `LanguageBoundary.CachesRefine` | djinni/support-lib/jni/djinni_support.hpp:371-475 | at every change from a world that was orderly so far each of the two caches takes a step of its specification, or none |
| `LanguageBoundary.CallCompletes` | djinni/support-lib/jni/djinni_support.hpp:371-413 | from any world that can arise, orderly or not, and whoever holds the mutex, every call under way can be brought to its end within twenty changes |
| `LanguageBoundary.AlwaysGoing` | djinni/support-lib/jni/djinni_support.hpp:371-413 | in every history, orderly or not, exactly the call that is inside get() holds its mutex, which is what completing it rests on |
| `Utf8.AcceptsExactly` | djinni/support-lib/jni/djinni_support.cpp:352-404 | the decoder accepts n bytes if and only if they are a UTF8-char of RFC 3629 section 4 or a surrogate in three bytes |
| `Utf8.EncodeInvertsDecode` | djinni/support-lib/jni/djinni_support.cpp:352-404 | whatever is accepted is exactly the encoding of its code point, so overlong forms are refused |
| `Utf8.DecodeInvertsEncode` | djinni/support-lib/jni/djinni_support.cpp:512-532 | an encoded code point decodes to itself wherever it stands in a string |
| `Utf8.PointsInvertEncodeAll` | djinni/support-lib/jni/djinni_support.cpp:512-532 | decoding inverts encoding on every sequence of code points |
| `Utf8.EncodeAllInvertsPoints` | djinni/support-lib/jni/djinni_support.cpp:406-415 | valid UTF-8 decodes without replacement to scalar values that encode back to it |
| `Utf8.EncodeKeepsOrder` | djinni/support-lib/jni/djinni_support.cpp:512-532 | encoded characters sort byte by byte like their numbers, as RFC 3629 section 1 has it, which with what is accepted fixes the number of every character |
| `Utf16.EncodeInvertsDecode` | djinni/support-lib/jni/djinni_support.cpp:488-499 | an accepted unit or surrogate pair is the encoding of its code point |
| `Utf16.EncodeKeepsOrder` | djinni/support-lib/jni/djinni_support.cpp:417-426 | up to U+FFFF a code point is its own unit, and beyond, surrogate pairs sort like their numbers |
| `Utf16.PointsInvertEncodeAll` | djinni/support-lib/jni/djinni_support.cpp:417-426 | decoding inverts encoding on every sequence of scalar values |
| `Utf16.EncodeAllPointsRepairs` | djinni/support-lib/jni/djinni_support.cpp:501-510 | decoding and re-encoding replaces exactly the unpaired surrogates, position by position |
| `CodeUnits.DecodingBitsAreArithmetic` | djinni/support-lib/jni/djinni_support.cpp:365-395 | the masks, shifts and ors of the decoder equal the arithmetic of the model, also where char is signed and bytes arrive sign-extended |
| `CodeUnits.EncodingBitsAreArithmetic` | djinni/support-lib/jni/djinni_support.cpp:417-532 | the masks, shifts and ors of the encoders and of the UTF-16 decoder equal the arithmetic of the model |
| `Transcoding.Utf8Decode` | djinni/support-lib/jni/djinni_support.cpp:406-415 | decodes the head of the rest, advances past it and never past the end; a bad byte is U+FFFD and one step |
| `Transcoding.Utf16Decode` | djinni/support-lib/jni/djinni_support.cpp:501-510 | decodes the head of the rest, advances past it and never past the end; a lone surrogate is U+FFFD and one step |
| `Transcoding.JniStringFromUtf8` | djinni/support-lib/jni/djinni_support.cpp:428-433 | the loop ends with the index exactly at the length and yields the UTF-16 of the decoded code points |
| `Transcoding.JniUtf8FromString` | djinni/support-lib/jni/djinni_support.cpp:543-548 | the loop ends with the index exactly at the length and yields the UTF-8 of the decoded code points |
| `Transcoding.Utf16RoundTrip` | djinni/support-lib/jni/djinni_support.cpp:428-548 | UTF-16 to UTF-8 and back replaces exactly the unpaired surrogates, each by 0xFFFD in its place, so it is the identity if and only if the input is well formed |
| `Transcoding.Utf8RoundTrip` | djinni/support-lib/jni/djinni_support.cpp:428-548 | UTF-8 to UTF-16 and back is the identity if and only if the input is valid under RFC 3629 |
| `Transcoding.Utf8RoundTripIdempotent` | djinni/support-lib/jni/djinni_support.cpp:428-548 | for every byte string a second round trip changes nothing |
| `Transcoding.ToUtf8IsValid` | djinni/support-lib/jni/djinni_support.cpp:501-548 | UTF-8 made from any UTF-16 is valid under RFC 3629 |
| `Transcoding.ToUtf16IsWellFormedIff` | djinni/support-lib/jni/djinni_support.cpp:406-433 | the UTF-16 is well formed if and only if in the bytes each high surrogate spelled in three bytes is directly followed by a low one and each low one directly preceded by a high one, hence for all valid UTF-8 |
| `Utf16.EncodeAllIsWellFormedIff` | djinni/support-lib/jni/djinni_support.cpp:417-426 | any sequence of code points encodes to well-formed UTF-16 if and only if the surrogates in it pair up |
| `Transcoding.ToUtf16IsOnto` | djinni/support-lib/jni/djinni_support.cpp:373-384 | every UTF-16 string, ill-formed ones included, is the image of some byte string |
| `Transcoding.LoneSurrogateLeaksThrough` | djinni/support-lib/jni/djinni_support.cpp:373-384 | the bytes ED A0 80 become a lone surrogate |
| `Transcoding.BadByteIsReplaced` | djinni/support-lib/jni/djinni_support.cpp:406-415 | a byte that starts nothing acceptable becomes 0xFFFD and the rest decodes as if it stood alone |
| `Transcoding.LoneSurrogateIsReplaced` | djinni/support-lib/jni/djinni_support.cpp:501-510 | a surrogate without its partner becomes EF BF BD and the rest as if it stood alone |
| `Transcoding.TooLargeIsReplaced` | djinni/support-lib/jni/djinni_support.cpp:417-532 | both encoders make U+FFFD of numbers beyond U+10FFFF |
| `Transcoding.ToUtf16Length` | djinni/support-lib/jni/djinni_support.cpp:431-433 | the UTF-16 has at most as many units as there are bytes, and at least a third |
| `Transcoding.ToUtf8Length` | djinni/support-lib/jni/djinni_support.cpp:545-547 | the UTF-8 has at least as many bytes as there are units, and at most three times as many |
| `DecoderPump.IterateKeepsOk` | src/audio_file_decoder.cpp:84-105 | each iteration of FillDecoder keeps packets in order and samples accounted for |
| `DecoderPump.FillDecoderKeepsOk` | src/audio_file_decoder.cpp:83-106 | so does the whole loop |
| `DecoderPump.FillDecoderStops` | src/audio_file_decoder.cpp:83-106 | FillDecoder stops only at the end of the file, at a refusal with a frame to receive, or at a fatal error, and leaves FIFO and frames alone |
| `DecoderPump.WriteKeepsOk` | src/audio_file_decoder.cpp:109-114 | each iteration of FillFifo keeps packets in order and samples accounted for |
| `DecoderPump.FillFifoKeepsOk` | src/audio_file_decoder.cpp:108-115 | FillFifo moves frames without loss |
| `DecoderPump.FillFifoStops` | src/audio_file_decoder.cpp:108-115 | FillFifo stops when the FIFO is full or the codec has no more, and changes nothing else |
| `DecoderPump.ConsumeKeepsOk` | src/audio_file_decoder.cpp:73-81 | a pull loses, repeats and reorders nothing |
| `DecoderPump.NothingIsLost` | src/audio_file_decoder.cpp:73-115 | between any two calls of any run, consumed ++ FIFO ++ not yet released is the decoding of the packets sent, which are the chosen stream's in file order, each accepted once, a refused one kept and next |
| `DecoderPump.FillDecoderSends` | src/audio_file_decoder.cpp:83-106 | for any codec at all: every packet FillDecoder gets rid of was accepted when offered; it ends at the end of the file or with an answer other than accepted, and ends the program if and only if that answer is a failure |
| `DecoderPump.RunAbortsIff` | src/audio_file_decoder.cpp:95-104 | a run ends the program if and only if the codec failed on a packet it was offered |
| `DecoderPump.ChosenIsAll` | src/audio_file_decoder.cpp:89-92 | the packets chosen are exactly those of the stream, one by one in file order |
| `DecoderPump.OnlyChosenStream` | src/audio_file_decoder.cpp:89-92 | no packet of another stream is ever sent |
| `DecoderPump.FifoBound` | src/audio_file_decoder.cpp:108-115 | in every run the FIFO stays within its capacity - 1 plus one frame |
| `DecoderPump.ShortMeansEnd` | src/audio_file_decoder.cpp:83-115 | if the FIFO is short after topping up, every frame of the file has been released; rests on send and receive never both saying EAGAIN |
| `DecoderPump.ConsumeIsExact` | src/audio_file_decoder.cpp:73-81 | a pull of n yields the next n samples of the file, or all that is left if fewer |
| `DecoderPump.ConsumeYields` | src/audio_file_decoder.cpp:73-81 | with no assumption on frame sizes, a pull yields n samples or, if fewer, all that the packets accepted by then decode to and nobody has taken |
| `DecoderPump.EarlyEnd` | src/audio_file_decoder.cpp:73-81 | a codec within the contract and a file of two samples whose first pull of two yields one |
| `AudioFileDecoder.AudioFileDecoder.FillDecoder` | src/audio_file_decoder.cpp:83-106 | the loop terminates on every file and does what the specification says |
| `AudioFileDecoder.AudioFileDecoder.FillFifo` | src/audio_file_decoder.cpp:108-115 | the loop does what the specification says |
| `AudioFileDecoder.AudioFileDecoder.Consume` | src/audio_file_decoder.cpp:73-81 | the pull of the specification, and a byte count of two per sample and channel |
| `FileChunks.ReadsPullOnce` | src/audio_file_source.cpp:88-97 | a run, each read going on with the decoder and the buffer that the one before left, makes one pull per read and keeps its buffer |
| `FileChunks.SizeMatchesIff` | src/audio_file_source.cpp:88-94 | the size check passes if and only if twice the samples read is the chunk times the real sample size |
| `FileChunks.ReadTakes` | src/audio_file_source.cpp:88-94 | read i takes the samples of the file right after those taken before: a chunk, or all that the packets accepted so far decode to |
| `FileChunks.DeliversIff` | src/audio_file_source.cpp:88-96 | in a format of any sample size a read succeeds just by how much it takes, and delivers the buffer with its front overwritten |
| `FileChunks.LongFramesDeliverIff` | src/audio_file_source.cpp:88-94 | for every sample size, which reads succeed: those with 2 * min(n, what is left of the file) = n * bytes per sample |
| `FileChunks.WideFormatsNeverRead` | src/audio_file_source.cpp:88-94 | with more than two bytes per sample no read ever succeeds |
| `FileChunks.OneByteReads` | src/audio_file_source.cpp:88-96 | with one byte per sample a read succeeds if and only if it takes half a chunk, and delivers that half followed by the leftover of earlier reads |
| `FileChunks.HalfAChunkPasses` | src/audio_file_source.cpp:88-96 | a file of one sample whose read of two succeeds in a one-byte format |
| `FileChunks.ReadsAreChunksIff` | src/audio_file_source.cpp:88-97 | for frames of any size, the first reads of a run deliver exactly the whole chunks of the decoded file, then end of file, if and only if by each chunk's read the codec has accepted packets that decode that far |
| `FileChunks.ShortReadIsDropped` | src/audio_file_source.cpp:88-94 | after an early end: every chunk delivered before or after it is a run of the file disjoint from what the failed read took, and later ones come from before their place |
| `FileChunks.EarlyEndThenMore` | src/audio_file_source.cpp:88-96 | a codec within the contract and a file of three samples, in chunks of two: the first read reports end of file, the second delivers samples two and three |
| `FileChunks.ReadsAreChunks` | src/audio_file_source.cpp:88-97 | with frames at least a chunk long and a file of at least one chunk, the reads of a run are exactly the whole chunks of the decoded file, then end of file, if and only if samples have two bytes |
| `FileChunks.SourceReadsChunks` | src/audio_file_source.cpp:21-30 | the same with the chunk and FIFO sizes the constructors compute |
| `ChunkTiming.SafeFramesIff` | src/audio_file_decoder.cpp:73-115 | for given frame sizes, the reads are the chunks with every codec within the contract if and only if each chunk ends within the frames that the most reluctant codec has released before its read, and one more |
| `ChunkTiming.InTimeNeedsFrames` | src/audio_file_decoder.cpp:108-115 | for that the first i + 1 frames must reach to the end of chunk i |
| `ChunkTiming.FramesAloneAreNotEnough` | src/audio_file_decoder.cpp:108-115 | which is not enough, since a full FIFO holds frames up: frames of four samples, one and one |
| `AudioFileSource.AudioFileSource.Read` | src/audio_file_source.cpp:88-97 | overwrites the front of the input buffer as specified, end of file if the sizes differ, otherwise offers the whole buffer to the converter, asks for the rounded-up count of output samples, at most one output frame rounded up, and returns what Resample does |
| `AudioFileSource.AudioFileSource.GetAudioFrameWithInfo` | src/audio_file_source.cpp:50-70 | a foreign rate is an error that pulls nothing; otherwise normal exactly if the read succeeded and at least one sample was converted, to a size that is an int |
| `FrameSizes.FrameFits` | src/audio_file_decoder.cpp:49-50 | for every rate and duration, chunk <= reported frame <= FIFO capacity |
| `FrameSizes.CountsAreGreatest` | src/audio_file_source.cpp:21-30 | chunk, reported frame and capacity are the greatest counts that fit into a frame, 10 ms and a tenth of a second |
| `FrameSizes.FifoHoldsTenFrames` | src/audio_file_decoder.cpp:49-50 | the FIFO has room for ten reported frames and not for eleven |
| `AudioResampler.InputSamplesAreExact` | src/audio_resampler.cpp:42-43 | the sample count is recovered exactly from the byte count |
| `AudioResampler.ResampledSizeIs` | src/audio_resampler.cpp:53-58 | Resample returns the error of the converter, or the bytes of the samples rounded up to the least multiple of 32, for all channels, or an error if that is nothing or not an int |
| `AudioResampler.ResampledSizeIsErrorIff` | src/audio_resampler.cpp:53-58 | Resample returns an error if and only if the converter failed or yielded no sample, there is no output channel, or the size is not an int |
| `AudioResampler.RequestIsLeast` | src/audio_resampler.cpp:44-46 | the request is the least number of output samples that last as long as the input |
| `AudioResampler.RequestIsBounded` | src/audio_resampler.cpp:44-51 | the output requested for one input frame is at most the output rate over frames per second, rounded up, hence within the reported frame when 100 divides the output rate |
| `AudioResampler.RequestFitsIff` | src/audio_resampler.cpp:44-51 | when the request fits the reported frame, exactly |
| `AudioResampler.RequestCanExceedReport` | src/audio_resampler.cpp:44-51 | from 44100 to 11025 Hz it does not fit |
| `RecordBuffer.NothingLost` | src/audio_record_source.cpp:28-57 | in every run, blocks removed ++ buffer is everything ever recorded |
| `RecordBuffer.RecordedIsAll` | src/audio_record_source.cpp:28-31 | what counts as recorded in a run is the data of all recordings in order |
| `RecordBuffer.PullAnswers` | src/audio_record_source.cpp:36-57 | after any history a pull is an error if and only if the rate is foreign, muted if and only if the rate is right and no other whole block was recorded, and a frame otherwise; only a frame changes anything |
| `RecordBuffer.SizesAreGreatest` | src/audio_record_source.cpp:20-21 | a pull removes the greatest number of elements that fit into a frame of all channels, and copies whole samples of 10 ms |
| `RecordBuffer.RemovesWhatItCopiesIff` | src/audio_record_source.cpp:20-21 | at 10 ms a pull removes what the frame copies if and only if channels * (rate mod 100) < 100 |
| `RecordBuffer.NeverOverreadsIff` | src/audio_record_source.cpp:39-48 | no run of recordings and pulls ever copies from behind the recorded data if and only if a frame copies no more than a pull removes, as always at 10 ms |
| `RecordBuffer.FiveMillisecondsOverread` | src/audio_record_source.cpp:39-48 | mono at 48 kHz in frames of 5 ms: after 240 elements are recorded the next pull reads 240 too far |
| `RecordBuffer.FrameIsAt` | src/audio_record_source.cpp:43-52 | as long as a frame copies no more than a pull removes, frame i is copied from i times what a pull removes |
| `RecordBuffer.FramesPartitionIff` | src/audio_record_source.cpp:43-52 | no run drops, repeats or reorders an element on its way to the mixer if and only if a pull removes what the frame copies, at 10 ms if and only if channels * (rate mod 100) < 100 |
| `RecordBuffer.StereoDrifts` | src/audio_record_source.cpp:20-21 | 22050 Hz stereo at 10 ms: each pull loses an element and the second frame starts with the wrong channel |
| `RecordBuffer.FramesPartitionRecording` | src/audio_record_source.cpp:43-52 | under that condition each frame is a channel-aligned run of the recording, the i-th of its size |
| `AudioRecordSource.AudioRecordSource.OnAudioRecorded` | src/audio_record_source.cpp:28-31 | appends size / 2 elements and keeps what was there |
| `AudioRecordSource.AudioRecordSource.ShiftLeft` | src/audio_record_source.cpp:50-52 | the overlapping move in place keeps every remaining element in order |
| `AudioRecordSource.AudioRecordSource.GetAudioFrameWithInfo` | src/audio_record_source.cpp:33-57 | the pull of the specification, with the frame taken from memory as it is behind the data too, and the count of elements that come from there; error and muted pulls change nothing |
| `AudioRecordSource.AudioRecordSource.UpdateFrame` | src/audio_record_source.cpp:43-48 | copies by the length of the frame, not by the size of the buffer |
| `SourceRegistry.KeptIff` | src/audio_mixer.cpp:61-78 | over every run an ssrc is kept if and only if a source was configured or added for it and the ssrc was not removed since, and what is kept is the object of the first such call |
| `SourceRegistry.RunAbortsIff` | src/audio_mixer.cpp:97-102 | a run ends the program if and only if a record source is configured or added with a foreign rate or channel count |
| `SourceRegistry.OpenIsExact` | src/audio_mixer.cpp:32-37 | the constructor registers exactly the sources it keeps, for every configuration |
| `SourceRegistry.AddTaken` | src/audio_mixer.cpp:61-66 | adding a taken ssrc leaves a registered object that nobody owns |
| `SourceRegistry.DanglingStays` | src/audio_mixer.cpp:61-78 | nothing the mixer can be asked to do removes such a pointer, unless a later source is put at the same address, which identities leave out |
| `SourceRegistry.ExactIffFresh` | src/audio_mixer.cpp:46-78 | over every run, registered and owned sources coincide if and only if every added ssrc was new, and destruction unregisters everything if and only if so |
| `SourceRegistry.MixedSizeIs` | src/audio_mixer.cpp:80-88 | Mix returns and copies 2 * channels * n bytes, n being the greatest number of samples that fit into a frame, or an error |
| `SourceRegistry.WholeFrameIsMixed` | src/audio_mixer.cpp:80-88 | at 10 ms the whole prepared frame is copied |
| `SourceRegistry.MixStaysInFrameIff` | src/audio_mixer.cpp:80-88 | the copy in Mix stays within the frame if and only if there is a channel, at least one sample per frame and a size that is an int; its size is within 7680 bytes up to 48 kHz and 8 channels |
| `SourceRegistry.MixOverrunsAt99Hz` | src/audio_mixer.cpp:80-88 | at 99 Hz and 10 ms the frame is empty and memcpy is told to copy 2^64 - 22 bytes |
| `AudioMixer.AudioMixer.constructor` | src/audio_mixer.cpp:19-37 | both loops together do what the specification says |
| `AudioMixer.AudioMixer.AddSource` | src/audio_mixer.cpp:61-66 | keeps every source there is, keeps and registers one new object, or fails exactly for a foreign record source; registered and kept sources still coincide after a new ssrc, and the mixer has a dangling pointer after a taken one |
| `AudioMixer.AudioMixer.RemoveSource` | src/audio_mixer.cpp:68-78 | drops and unregisters the one object of the ssrc and leaves every other in place, true exactly if the ssrc was present; registered and kept sources still coincide |
| `AudioMixer.AudioMixer.Destroy` | src/audio_mixer.cpp:46-52 | drops every source, and unregisters every owned one and no other |

## Left out

- Internals of FFmpeg, libswresample, WebRTC and JNI, and the values of resampled or mixed samples.
- Errors returned by avcodec_receive_frame other than "no frame now", and read errors in the middle of a file.
- Exceptions thrown by proxy allocators, static destruction of the cache, and a Handle with no object.
- Handle::assign after a proxy has been cached; the generated code only assigns while it constructs the proxy.
- Interfaces that lack one of the two proxy classes, for which the source asserts, and objects that implement several interfaces.
- The wide-string conversions, JniEnum and JniFlags, the marshalling templates and the generated bindings.
- Volume scaling, UpdateVolume and AddRecordedData, which only forward to one source.
- Overflow of the 32-bit products of rates and channel counts that are not sizes in bytes (the elements of a record source, the capacity of the FIFO, the count that Consume returns), negative rates and channel counts, and frame durations of zero or less, none of which the constructor rejects.
- The check in the constructor of AudioFileSource that ends the program when a chunk has no samples; the model goes on and reports end of file.
- SourceRegistry.DanglingStays: does not model that the address of a destroyed source can be used again for a later one.
