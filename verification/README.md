# ogg-opus-decoder: the host–native bridge, modelled in Dafny

This project models the part of `ogg-opus-decoder` that moves bytes and
samples between JavaScript and the Opus codec. It has three pieces.

- **`OggOpusHost`** (`ogg_opus_host.dfy`): the host-side `OggOpusDecoder` class.
  - It owns three arenas: 64 KiB of input, and 120 ms of samples for each of the left and right channels.
  - `decode` validates its argument.
  - It cuts the bytes into chunks that fit the input arena and enqueues each chunk.
  - After every chunk it drains the native decoder, step by step, into per-channel segment lists.
  - A negative step code becomes an error, with its text taken from the libopusfile error table.
  - Finally `concatFloat32` joins the segments into two channel arrays.
  - The native decoder is an oracle, a `Codec`. It maps the chunks accepted so far to three things: whether the next chunk is accepted, the frames the following decode steps write, and the code of the step that ends the drain.
  - The class is proved against a reference function, `DecodeSpec`. Lemmas about `DecodeSpec` state chunk coverage, segment accounting, the output shape and the error paths.
- **`OggOpusNative`** (`ogg_opus_native.dfy`): the C `OggOpusDecoder` with its embedded `ByteBuffer`.
  - It is a class over a 65536-byte array. The `start` and `cursor` pointers are modelled as indices into `queue`, the storage they address.
  - As intended, `queue` is the decoder's own `_data`. As written, creation leaves the pointers addressing other storage (see Findings).
  - It covers the read callback, `enqueue` (reject, append-and-open, overwrite-from-start), creation, and the stereo and general deinterleave routines.
  - libopusfile is not modelled. What it would return is passed in as parameters.
- **`OggOpusWorker`** (`ogg_opus_worker.dfy`): the Web Worker wrapper.
  - The proxy's id counter starts at `Number.MIN_SAFE_INTEGER`.
  - The proxy keeps a pending table keyed by id. Each request registers the current id and then increments the counter. Each reply resolves and removes exactly its own entry.
  - The worker side dispatches on the command and answers with the request's id.
  - The table is proved correct as a value (`Table`, `Post`, `Deliver`, `Run`). The proxy class is proved against that value.

`common.dfy` holds the shared vocabulary: bytes, `Option`, `Result` and segment concatenation.

Decoded samples have an opaque type `T`, because the code only copies them.

## Model

| member | source | states |
|---|---|---|
| Common.ConcatAppend | src/ogg-opus-decoder/src/OggOpusDecoder.js:14-17 | Appending one more buffer appends its elements to the concatenation: each `ret.set(buf, offset)` extends what has been written. |
| Common.ConcatSplit | src/ogg-opus-decoder/src/OggOpusDecoder.js:14-17 | The concatenation of a buffer list is the concatenation of any prefix followed by that of the rest. |
| OggOpusHost.Describe | src/ogg-opus-decoder/src/OggOpusDecoder.js:145-166 | A code present in the 13-entry libopusfile table gets its entry. The text is "Unknown error." exactly when the code is absent. |
| OggOpusHost.DecodeFailedMessage | src/ogg-opus-decoder/src/OggOpusDecoder.js:162-166 | A failed step's error text begins with `libopusfile ` and ends with the description of its code. |
| OggOpusHost.ChunksCover | src/ogg-opus-decoder/src/OggOpusDecoder.js:111-117 | The chunks, concatenated in order, are exactly the input. Every chunk is non-empty and at most 64*1024 bytes, the input arena's size. |
| OggOpusHost.ChunkAt | src/ogg-opus-decoder/src/OggOpusDecoder.js:111-116 | Chunk `k` exists exactly when `k*65536 < len`. It is `data[k*65536 .. min((k+1)*65536, len)]`, so the chunks are contiguous and in order. |
| OggOpusHost.ChunksFrom | src/ogg-opus-decoder/src/OggOpusDecoder.js:112-116 | From any offset short of the end, the next chunk is `data[offset .. offset + min(65536, len - offset)]`, followed by the chunks of the rest. |
| OggOpusHost.TotalIsChannelLength | src/ogg-opus-decoder/src/OggOpusDecoder.js:139-141 | `samplesDecoded`, the sum of the positive step results, equals the concatenated length of each channel's segment list. |
| OggOpusHost.Feed | src/ogg-opus-decoder/src/OggOpusDecoder.js:111-168 | The outer loop attempts at most every chunk. It attempts all of them when no failure occurs, and at least one when a failure ends it. |
| OggOpusHost.FeedStream | src/ogg-opus-decoder/src/OggOpusDecoder.js:120-128 | The native stream grows by exactly the accepted chunks: all chunks on success, every attempted chunk when a step fails, and all but the rejected one when enqueue fails. Step failures carry a negative code, and feeding never reports invalid input. |
| OggOpusHost.FeedFailure | src/ogg-opus-decoder/src/OggOpusDecoder.js:119-167 | Each failure has its cause. `EnqueueFailed` means the native decoder rejected the last attempted chunk (a falsy enqueue result). `DecodeFailed(c)` means the chunk was accepted and `c` is the final step code for the stream that includes it. Every chunk before the failing one was accepted and drained with a non-negative code, and on success every chunk was. |
| OggOpusHost.FeedFramesWellFormed | src/ogg-opus-decoder/src/OggOpusDecoder.js:131-142 | Every collected segment holds between 1 and 120*48 samples, and the same number in both channels. |
| OggOpusHost.DecodeOutputShape | src/ogg-opus-decoder/src/OggOpusDecoder.js:170-176 | A successful decode returns two channels, each exactly `samplesDecoded` long. |
| OggOpusHost.DecodeRejectsNonBytes | src/ogg-opus-decoder/src/OggOpusDecoder.js:101-104 | An argument that is not a `Uint8Array` fails with the invalid-input error. No chunk reaches the native decoder and its state is unchanged. |
| OggOpusHost.DecodeEmptyInput | src/ogg-opus-decoder/src/OggOpusDecoder.js:106-111 | Empty input enqueues nothing and yields two empty channels with zero samples. |
| OggOpusHost.DecodeEnqueuesChunks | src/ogg-opus-decoder/src/OggOpusDecoder.js:111-128 | The enqueued chunks are a prefix of the chunking. On success they are all of the chunks, cover the input exactly, and the stream grows by all of them. After a rejected enqueue the stream grows by all but the last. After a step failure it grows by every enqueued chunk. |
| OggOpusHost.ConcatFloat32 | src/ogg-opus-decoder/src/OggOpusDecoder.js:10-20 | The result has exactly `length` elements. The buffers fit exactly when their total length is at most `length`. Then the result is their in-order concatenation followed by zeros. |
| OggOpusHost.OggOpusDecoder.AllocateArenas | src/ogg-opus-decoder/src/OggOpusDecoder.js:61-75 | Three fresh, distinct arenas: 64*1024 input bytes and 120*48 samples for each channel. |
| OggOpusHost.OggOpusDecoder.constructor | src/ogg-opus-decoder/src/OggOpusDecoder.js:57-75 | A fresh native decoder that has accepted no chunk and run no step, with fresh arenas of the right sizes. |
| OggOpusHost.OggOpusDecoder.Free | src/ogg-opus-decoder/src/OggOpusDecoder.js:87-93 | Releases the decoder and its arenas. |
| OggOpusHost.OggOpusDecoder.Reset | src/ogg-opus-decoder/src/OggOpusDecoder.js:82-85 | Free, then `_init`: fresh arenas and a native decoder that has accepted no chunk. |
| OggOpusHost.OggOpusDecoder.Enqueue | src/ogg-opus-decoder/src/OggOpusDecoder.js:120-124 | The native decoder is offered the first `size` bytes of the input arena. The stream grows by that chunk exactly when it is accepted. |
| OggOpusHost.OggOpusDecoder.DecodeStep | src/ogg-opus-decoder/src/OggOpusDecoder.js:133-137 | The next undrained frame is written to the start of both output arenas and its length returned; the arenas past that length are unchanged. With no frame left, the final non-positive code is returned and both arenas are unchanged. |
| OggOpusHost.OggOpusDecoder.CopyToInput | src/ogg-opus-decoder/src/OggOpusDecoder.js:117 | The input arena begins with the chunk `data[offset .. offset + size]`, and the rest of the arena is unchanged. |
| OggOpusHost.OggOpusDecoder.Drain | src/ogg-opus-decoder/src/OggOpusDecoder.js:131-142 | The segment lists and the total grow by exactly the codec's frames for this chunk, in order. The loop ends with the codec's final code. |
| OggOpusHost.OggOpusDecoder.FeedChunk | src/ogg-opus-decoder/src/OggOpusDecoder.js:112-167 | One outer iteration (copy, enqueue, drain) agrees with the reference `Feed`. It either ends with the same failure or leaves the rest of the feed to continue from the new native state. |
| OggOpusHost.OggOpusDecoder.FeedNext | src/ogg-opus-decoder/src/OggOpusDecoder.js:111-168 | One outer iteration strictly advances `offset` and keeps the attempted chunks a prefix of the chunking. It preserves the invariant that what was collected, joined with `Feed` of the rest, is `Feed` of the whole input. |
| OggOpusHost.OggOpusDecoder.FeedAll | src/ogg-opus-decoder/src/OggOpusDecoder.js:111-168 | The outer loop terminates. Its segments, total, failure and new native stream are those of `Feed` over the chunking. The chunks it enqueued are a prefix of the chunking. |
| OggOpusHost.OggOpusDecoder.Decode | src/ogg-opus-decoder/src/OggOpusDecoder.js:100-177 | The result, the new native stream and the chunks handed to enqueue are those of the reference `DecodeSpec`. |
| OggOpusHost.ResetMatchesFresh | src/ogg-opus-decoder/src/OggOpusDecoder.js:82-85 | After `reset`, an instance decodes any input exactly as a newly constructed one does. |
| OggOpusNative.Interleave2 | src/ogg-opus-decoder/src/ogg_opus_decoder.c:110-115 | Interleaving two channels of `n` samples gives `2n` floats. |
| OggOpusNative.Interleave2At | src/ogg-opus-decoder/src/ogg_opus_decoder.c:112-115 | In an interleaved stereo buffer, element `2i` is left sample `i` and element `2i+1` is right sample `i`. |
| OggOpusNative.DeinterleaveInterleave | src/ogg-opus-decoder/src/ogg_opus_decoder.c:112-115 | Deinterleaving an interleaved stereo buffer gives back both channels. |
| OggOpusNative.ChannelStereoTail | src/ogg-opus-decoder/src/ogg_opus_decoder.c:112-115 | A stereo channel starts with element `c` and continues with the same channel of the buffer after the first frame. |
| OggOpusNative.InterleaveDeinterleave | src/ogg-opus-decoder/src/ogg_opus_decoder.c:112-115 | Re-interleaving the two deinterleaved channels rebuilds the first `2n` floats of `pcm`: no sample is lost. |
| OggOpusNative.AsWrittenRequestOverflowsScratch | src/ogg-opus-decoder/src/ogg_opus_decoder.c:95 | As written, for six channels the size passed to `op_read_float` admits 2880 samples per channel. That is 17280 floats, more than the 11520 that `pcm` holds. |
| OggOpusNative.ReadRequest | src/ogg-opus-decoder/src/ogg_opus_decoder.c:95 | The corrected size never exceeds `pcm`'s 120*48*2 floats or 120*48 per channel. For mono and stereo it equals the size as written. |
| OggOpusNative.SlotsWithinSize | src/ogg-opus-decoder/src/ogg_opus_decoder.c:98-102 | When `n * channels` floats are available, every index `i*channels + c` read by the first `n` frames is inside the buffer. |
| OggOpusNative.ChannelIndexBound | src/ogg-opus-decoder/src/ogg_opus_decoder.c:100 | Index `i*channels + c` lies below `n*channels` for `i < n` and `c < channels`. |
| OggOpusNative.OggOpusDecoder.Create | src/ogg-opus-decoder/src/ogg_opus_decoder.c:125-145 | As intended: no stream is open, `start` and `cursor` address the first byte of the decoder's own `_data`, and nothing is unread. |
| OggOpusNative.OggOpusDecoder.CreateAsWritten | src/ogg-opus-decoder/src/ogg_opus_decoder.c:125-145 | As written: no stream is open and nothing is unread, but `start` and `cursor` address storage distinct from the decoder's `_data`. That storage is the `_data` of `create_bytebuffer`'s local, which is copied by value at lines 130, 140 and 143. |
| OggOpusNative.AsWrittenEnqueueMissesData | src/ogg-opus-decoder/src/ogg_opus_decoder.c:59-89 | After the as-written create, the first chunk is accepted and lands in the storage the pointers address. The decoder's own `_data` is left exactly as it was. |
| OggOpusNative.EnqueueAfterCreateFillsData | src/ogg-opus-decoder/src/ogg_opus_decoder.c:59-89 | After the intended create, the first chunk is accepted and stored at the start of `_data`. Until the stream opens, it is exactly the unread input; an open stream empties the queue. |
| OggOpusNative.OggOpusDecoder.ReadCallback | src/ogg-opus-decoder/src/ogg_opus_decoder.c:3-24 | With no stream open: returns 0 and changes nothing. Otherwise: returns `min(n, num_unread)`, copies that many bytes from the cursor, advances the cursor and decreases `num_unread` by it, and leaves the rest of the unread bytes queued in order. |
| OggOpusNative.OggOpusDecoder.Enqueue | src/ogg-opus-decoder/src/ogg_opus_decoder.c:40-90 | Over capacity: returns 0 and changes nothing. Otherwise returns 1 with `cursor == start`. Before the stream is open, the chunk is appended after the unread bytes and all of them go to `op_open_callbacks`; success (`err == 0`) empties the queue. Once open, the chunk overwrites `_data` from the start and `num_unread` grows by its size. |
| OggOpusNative.OggOpusDecoder.AppendAndOpen | src/ogg-opus-decoder/src/ogg_opus_decoder.c:63-82 | The chunk lands right after the unread bytes, and nothing else in `_data` changes. The stream opens exactly when `op_open_callbacks` reports 0 on the queued bytes, and then the queue is emptied. |
| OggOpusNative.OggOpusDecoder.DecodeFloatStereoDeinterleaved | src/ogg-opus-decoder/src/ogg_opus_decoder.c:107-118 | Returns 0 and leaves `pcm` untouched when no stream is open. Otherwise returns the codec's count. For a positive count `n`, `left[..n]` and `right[..n]` are channels 0 and 1 of the decoded `pcm`, and nothing past `n` changes. |
| OggOpusNative.OggOpusDecoder.DeinterleaveStereo | src/ogg-opus-decoder/src/ogg_opus_decoder.c:112-115 | `l[i] == pcm[2i]` and `r[i] == pcm[2i+1]` for every `i < n`, and nothing past `n` changes. |
| OggOpusNative.OggOpusDecoder.DecodeFloatDeinterleaved | src/ogg-opus-decoder/src/ogg_opus_decoder.c:92-105 | Returns 0 when no stream is open. A step never yields more than 120*48 samples per channel. Otherwise, for a positive count `n`, every output `c` begins with `pcm[i*channels + c]` for `i < n` and is unchanged past `n`. |
| OggOpusNative.OggOpusDecoder.DeinterleaveChannels | src/ogg-opus-decoder/src/ogg_opus_decoder.c:98-102 | Every output `c` begins with channel `c` of the first `n` interleaved frames and is unchanged past `n`. |
| OggOpusNative.OggOpusDecoder.DeinterleaveFrames | src/ogg-opus-decoder/src/ogg_opus_decoder.c:98-102 | After the outer loop, `output[c][i] == pcm[i*channels + c]` for every `i < n` and `c < channels`. |
| OggOpusNative.OggOpusDecoder.DeinterleaveSample | src/ogg-opus-decoder/src/ogg_opus_decoder.c:99-101 | The inner loop sets sample `i` of every output and touches nothing else. |
| OggOpusNative.OggOpusDecoder.Memcpy | src/ogg-opus-decoder/src/ogg_opus_decoder.c:64 | `memcpy` writes `src[..size]` at `dst + at` and leaves the rest of `dst` unchanged. |
| OggOpusNative.OggOpusDecoder.CodecStep | src/ogg-opus-decoder/src/ogg_opus_decoder.c:95 | The codec consumes up to `wanted` queued bytes through `cb_read`, in order, and writes its output into `pcm`. |
| OggOpusWorker.InitialTable | src/ogg-opus-decoder/src/OggOpusDecoderWebWorker.js:87-88 | The counter starts at `Number.MIN_SAFE_INTEGER`, nothing is pending, and the table is valid. |
| OggOpusWorker.PostFresh | src/ogg-opus-decoder/src/OggOpusDecoderWebWorker.js:96-105 | The id being registered is not already pending. Posting adds exactly that id, keeps every other entry, and keeps the table valid. |
| OggOpusWorker.DeliverExact | src/ogg-opus-decoder/src/OggOpusDecoderWebWorker.js:90-93 | A reply is accepted exactly when its id is pending. It yields that entry, removes only that id, leaves every other entry as it was, and keeps the table valid. |
| OggOpusWorker.PostThenDeliver | src/ogg-opus-decoder/src/OggOpusDecoderWebWorker.js:90-105 | Answering a request undoes its registration: the table returns to its previous entries, with the counter advanced. |
| OggOpusWorker.ResolvedOnce | src/ogg-opus-decoder/src/OggOpusDecoderWebWorker.js:91-92 | After a reply resolves its id, a second reply with the same id is refused. |
| OggOpusWorker.RunKeepsValid | src/ogg-opus-decoder/src/OggOpusDecoderWebWorker.js:90-105 | Along any interleaving of requests and replies, the table stays valid and the counter advances by exactly the number of requests. |
| OggOpusWorker.PostAllRegisters | src/ogg-opus-decoder/src/OggOpusDecoderWebWorker.js:104 | `n` requests in a row get the `n` ids after the counter. None of them was pending, each is registered with its own command, and every earlier entry survives. |
| OggOpusWorker.OggOpusDecoderWebWorker.constructor | src/ogg-opus-decoder/src/OggOpusDecoderWebWorker.js:87-88 | The proxy starts from the initial table, with nothing posted. |
| OggOpusWorker.OggOpusDecoderWebWorker.PostToDecoder | src/ogg-opus-decoder/src/OggOpusDecoderWebWorker.js:96-105 | The message carries the current id, which was not pending. The table becomes `Post` of the old one, i.e. that id is registered and the counter incremented. |
| OggOpusWorker.OggOpusDecoderWebWorker.Ready | src/ogg-opus-decoder/src/OggOpusDecoderWebWorker.js:108-110 | Posts `ready` under the current id. |
| OggOpusWorker.OggOpusDecoderWebWorker.Free | src/ogg-opus-decoder/src/OggOpusDecoderWebWorker.js:112-116 | Posts `free` under the current id. |
| OggOpusWorker.OggOpusDecoderWebWorker.Reset | src/ogg-opus-decoder/src/OggOpusDecoderWebWorker.js:118-120 | Posts `reset` under the current id. |
| OggOpusWorker.OggOpusDecoderWebWorker.Decode | src/ogg-opus-decoder/src/OggOpusDecoderWebWorker.js:122-125 | Posts `decode` with the bytes under the current id. |
| OggOpusWorker.OggOpusDecoderWebWorker.OnMessage | src/ogg-opus-decoder/src/OggOpusDecoderWebWorker.js:90-93 | Settles exactly when the id is pending, and then removes only that entry. A settled `decode` yields the reply's audio. A settled `free` terminates the worker, whatever the outcome. An unknown id changes nothing. |
| OggOpusWorker.WorkerScope.constructor | src/ogg-opus-decoder/src/OggOpusDecoderWebWorker.js:17-21 | The worker owns a fresh decoder that has accepted no chunk. |
| OggOpusWorker.WorkerScope.OnMessage | src/ogg-opus-decoder/src/OggOpusDecoderWebWorker.js:23-66 | Every reply carries the request's own id. `ready`, `free` and `reset` are answered with an empty reply. `ready` leaves the decoder's stream as it was, `free` releases the decoder, and `reset` restarts it. A `decode` that succeeds is answered with the audio of `DecodeSpec`. An unknown command, or a `decode` that throws, gets no reply. |
| OggOpusWorker.DecodeRoundTrip | src/ogg-opus-decoder/src/OggOpusDecoderWebWorker.js:48-61 | A decode sent through the proxy yields the reference decode's audio and leaves the pending table as it was. When the worker's decode throws, no reply comes and the request stays pending for good. |

## Left out

- libopusfile (`op_open_callbacks`, `op_read_float_stereo`, `op_read_float`, `op_free`) is a foreign codec and is not modelled. The host side sees it as the `Codec` oracle. The native side receives its results as parameters: the open error code, the sample count, the interleaved samples, and the number of bytes it pulls through `cb_read`. Sample values are never computed with.
- The Wasm/Emscripten plumbing is not modelled: the module singleton, `_malloc`/`_free` heap addresses and `HEAP` views. The arenas are separately owned Dafny arrays, and `free` is a flag.
- The `async` parts are modelled as sequential calls: `_init` awaiting `ready`, `reset` awaiting `_init`, the worker awaiting `decoder.ready` or `decoder.reset()`, and the proxy's Promises. `postMessage` is a list of posted messages, the reply is passed to the handler directly, and `terminate` is a flag. Buffer transfer lists and the stringified worker bootstrap (Blob and base64 URLs) are left out.
- The worker's constructor passes three arguments to a two-argument constructor. That dependency-injection path is not modelled; the worker's decoder is an ordinary instance.
- `sampleRate` is not carried in the decode reply. `OpusDecodedAudio.js` is not part of this model; decoded audio is the pair (channel data, sample count).
- OggOpusWorker.OggOpusDecoderWebWorker.OnMessage: a reply whose id is not pending returns `None` and changes nothing. In the source, calling the missing resolver throws a `TypeError` inside the handler.
- OggOpusWorker.WorkerScope.OnMessage: the worker decodes `new Uint8Array(oggOpusData)`, which converts whatever the proxy posted. An ArrayBuffer, a plain array or a number becomes bytes, so the invalid-input rejection of a direct `decode` never happens through the worker. The model types the posted payload as bytes and does not model that conversion; the worker always calls `decode` with `Bytes`.
- OggOpusWorker.WorkerScope.OnMessage: requires a decoder that has not been freed. The behaviour of commands sent after `free` (calls into released Wasm memory) is not modelled.
- OggOpusWorker.PostAllRegisters: ids are exact integers. The source's `_id` is a double, which stops being exact above 2^53; that would take 2^54 requests, so it is not modelled.
- OggOpusNative.OggOpusDecoder.DecodeFloatDeinterleaved: the request size is `ReadRequest(channels)`, capped at the size of `pcm`, rather than the size as written. The as-written request is modelled separately (see Findings). The eight separate output pointers are a sequence of distinct arrays.
- OggOpusNative.OggOpusDecoder.CreateAsWritten: the storage the dangling pointers address is a separate array that nothing else touches. In the source it is a dead stack frame that later calls may overwrite at any time; that clobbering is not modelled. All other native operations are stated for the intended `Create`.
- `ogg_opus_decoder_free` and the host's `free` only release memory; they are modelled as a flag on the host side and not at all on the native side.
- The C integer widths (`int num_unread`, `size_t size`) cannot overflow here: every count is bounded by the 65536-byte buffer. They are modelled as unbounded integers.

## Findings

| source | as written | input that shows it | evidently intended | confidence | as-written member | corrected member |
|---|---|---|---|---|---|---|
| src/ogg-opus-decoder/src/ogg_opus_decoder.c:95 | `op_read_float` is told that `pcm` holds `120*48*channels` floats, but `pcm` holds `120*48*2` (ogg_opus_decoder.h:29) | a six-channel stream with 60 ms packets: 2880 samples per channel fit the stated size (17280 floats) but overflow `pcm` (11520 floats) | the stated size never exceeds the real size of `pcm` | not executed | OggOpusNative.AsWrittenRequestOverflowsScratch | OggOpusNative.ReadRequest |
| src/ogg-opus-decoder/src/ogg_opus_decoder.c:125-145 | `create_bytebuffer` points `start` and `cursor` at its local's `_data` and returns the struct by value; the copies at lines 140 and 143 keep pointers into that returned frame, not into the heap decoder's `_data` | `ogg_opus_decoder_create()` followed by any `ogg_opus_decoder_enqueue`: the `memcpy` at line 64 writes through the dangling `start`, and the decoder's `_data` never receives a byte | `start` and `cursor` point at the heap decoder's own `_data` (set after line 143, e.g. `ptr->buffer.start = ptr->buffer.cursor = ptr->buffer._data`) | not executed | OggOpusNative.AsWrittenEnqueueMissesData | OggOpusNative.EnqueueAfterCreateFillsData |
