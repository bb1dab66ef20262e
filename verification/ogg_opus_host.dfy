/** The host side of the bridge (OggOpusDecoder.js): a decoder instance that
    owns three arenas (64 KiB of compressed input, 120 ms of samples for each
    of the left and right channels) and the streaming decode loop that cuts any
    byte sequence into arena-sized chunks, enqueues each one, drains the native
    decoder after every chunk, and joins the drained segments into two channel
    arrays.

    The native decoder is an oracle. A `Codec` maps the chunks the native
    decoder has accepted so far (its `stream`) to its answer for the latest
    chunk: whether `_ogg_opus_decoder_enqueue` accepts it, the frames that the
    following `_ogg_opus_decode_float_stereo_deinterleaved` steps write into the
    output arenas, and the non-positive code of the step that ends the drain.
    Any deterministic native decoder is such a function of its input history. */
module OggOpusHost {
  import opened Common

  /** Input arena: 64 KiB, the most that one enqueue accepts. */
  const InputArenaLength: nat := 64 * 1024
  /** Output arenas: 120 ms at 48 kHz per channel. */
  const OutputArenaLength: nat := 120 * 48

  /** What `decode` is called with: a `Uint8Array`, or anything else (known
      only by its `typeof`). */
  datatype Input = Bytes(bytes: seq<Byte>) | NotBytes(typeName: string)

  /** One positive decode step: the samples written to each output arena. */
  datatype Frame<T> = Frame(left: seq<T>, right: seq<T>)

  /** The native decoder's answer to one chunk: acceptance by enqueue, the
      frames of the positive decode steps that follow, and the final step code
      (0 when drained, negative on error). */
  datatype ChunkReply<T> = ChunkReply(accepted: bool, frames: seq<Frame<T>>, final: int)

  type Codec<T> = seq<seq<Byte>> -> ChunkReply<T>

  /** A step writes between 1 and 120*48 samples to each channel, the same
      number to both. */
  predicate WellFormedFrame<T>(f: Frame<T>)
  {
    0 < |f.left| == |f.right| <= OutputArenaLength
  }

  predicate WellFormedReply<T>(r: ChunkReply<T>)
  {
    r.final <= 0 && forall i :: 0 <= i < |r.frames| ==> WellFormedFrame(r.frames[i])
  }

  /** What the native decoder promises for every state it can be in. */
  ghost predicate WellFormedCodec<T>(codec: Codec<T>)
  {
    forall stream :: WellFormedReply(codec(stream))
  }

  // ---------------------------------------------------------------------
  // Errors

  datatype DecodeError =
    | InvalidInput(typeName: string)
    | EnqueueFailed
    | DecodeFailed(code: int)

  const UnknownError: string := "Unknown error."

  /** The libopusfile error codes the host knows how to describe. */
  const ErrorTable: map<int, string> := map[
    -1 := "A request did not succeed.",
    -3 := "There was a hole in the page sequence numbers (e.g., a page was corrupt or missing).",
    -128 := "An underlying read, seek, or tell operation failed when it should have succeeded.",
    -129 := "A NULL pointer was passed where one was unexpected, or an internal memory allocation failed, or an internal library error was encountered.",
    -130 := "The stream used a feature that is not implemented, such as an unsupported channel family.",
    -131 := "One or more parameters to a function were invalid.",
    -132 := "A purported Ogg Opus stream did not begin with an Ogg page, a purported header packet did not start with one of the required strings, \"OpusHead\" or \"OpusTags\", or a link in a chained file was encountered that did not contain any logical Opus streams.",
    -133 := "A required header packet was not properly formatted, contained illegal values, or was missing altogether.",
    -134 := "The ID header contained an unrecognized version number.",
    -136 := "An audio packet failed to decode properly. This is usually caused by a multistream Ogg packet where the durations of the individual Opus packets contained in it are not all the same.",
    -137 := "We failed to find data we had seen before, or the bitstream structure was sufficiently malformed that seeking to the target destination was impossible.",
    -138 := "An operation that requires seeking was requested on an unseekable stream.",
    -139 := "The first or last granule position of a link failed basic validity checks."
  ]

  /** `errors[code] || "Unknown error."`: a known code gets its table entry and
      only an unknown code reads "Unknown error.". */
  function Describe(code: int): (text: string)
    ensures code in ErrorTable ==> text == ErrorTable[code]
    ensures text == UnknownError <==> code !in ErrorTable
  {
    if code in ErrorTable then ErrorTable[code] else UnknownError
  }

  function DigitChar(d: nat): char
    requires d < 10
  {
    "0123456789"[d]
  }

  function NatToDecimal(n: nat): string
    decreases n
  {
    if n < 10 then [DigitChar(n)] else NatToDecimal(n / 10) + [DigitChar(n % 10)]
  }

  /** JavaScript's rendering of an integer inside a template string. */
  function IntToDecimal(i: int): string
  {
    if i < 0 then "-" + NatToDecimal(-i) else NatToDecimal(i)
  }

  /** The text of the `Error` that `decode` throws. */
  function Message(e: DecodeError): string
  {
    match e
    case InvalidInput(t) => "Data to decode must be Uint8Array. Instead got \"" + t + "\"."
    case EnqueueFailed => "Could not enqueue bytes for decoding. You may also have invalid Ogg Opus file."
    case DecodeFailed(code) => "libopusfile " + IntToDecimal(code) + ": " + Describe(code)
  }

  /** A failed decode step is reported as `libopusfile <code>: ` followed by
      the table entry for the code, or by "Unknown error." when the table has
      none. */
  lemma DecodeFailedMessage(code: int)
    ensures var m := Message(DecodeFailed(code));
      && 12 + |Describe(code)| <= |m|
      && m[..12] == "libopusfile "
      && m[|m| - |Describe(code)|..] == Describe(code)
  {
    var prefix := "libopusfile " + IntToDecimal(code) + ": ";
    var m := Message(DecodeFailed(code));
    assert m == prefix + Describe(code);
    assert m[..12] == prefix[..12];
    assert m[|prefix|..] == Describe(code);
  }

  // ---------------------------------------------------------------------
  // Chunking

  /** The chunks `decode` hands to enqueue: the input cut into pieces of one
      input arena each, the last one shorter. */
  function Chunks(data: seq<Byte>): seq<seq<Byte>>
    decreases |data|
  {
    if |data| == 0 then []
    else
      var n := Min(InputArenaLength, |data|);
      [data[..n]] + Chunks(data[n..])
  }

  /** The chunks are non-empty, fit the input arena, and together are exactly
      the input, in order. */
  lemma {:induction false} ChunksCover(data: seq<Byte>)
    ensures Concat(Chunks(data)) == data
    ensures forall i :: 0 <= i < |Chunks(data)| ==> 0 < |Chunks(data)[i]| <= InputArenaLength
    decreases |data|
  {
    if |data| != 0 {
      var n := Min(InputArenaLength, |data|);
      var rest := Chunks(data[n..]);
      ChunksCover(data[n..]);
      assert ([data[..n]] + rest)[1..] == rest;
      assert data[..n] + data[n..] == data;
      forall i | 0 <= i < |Chunks(data)|
        ensures 0 < |Chunks(data)[i]| <= InputArenaLength
      {
        if i > 0 {
          assert Chunks(data)[i] == rest[i - 1];
        }
      }
    }
  }

  lemma SliceOfSuffix<X>(s: seq<X>, d: nat, a: nat, b: nat)
    requires d + b <= |s| && a <= b
    ensures s[d..][a..b] == s[d + a..d + b]
  {
  }

  /** Offset in the input of chunk `k`. */
  function ChunkStart(k: nat): nat
  {
    k * InputArenaLength
  }

  lemma ChunkStartStep(k: nat)
    requires k > 0
    ensures ChunkStart(k) == ChunkStart(k - 1) + InputArenaLength
  {
  }

  /** Chunk `k` exists exactly when `k` arenas' worth of bytes do not cover the
      input, and it is `data[k*64Ki .. min((k+1)*64Ki, |data|)]`. */
  lemma {:induction false} ChunkAt(data: seq<Byte>, k: nat)
    ensures k < |Chunks(data)| <==> ChunkStart(k) < |data|
    ensures k < |Chunks(data)| ==>
      Chunks(data)[k] == data[ChunkStart(k) .. Min(ChunkStart(k + 1), |data|)]
    decreases k
  {
    var L := InputArenaLength;
    if |data| != 0 && k != 0 {
      var n := Min(L, |data|);
      var rest := data[n..];
      assert Chunks(data)[1..] == Chunks(rest);
      ChunkAt(rest, k - 1);
      ChunkStartStep(k);
      ChunkStartStep(k + 1);
      if n == L && ChunkStart(k) < |data| {
        var m := ChunkStart(k - 1);
        var e := Min(ChunkStart(k), |rest|);
        SliceOfSuffix(data, L, m, e);
      }
    }
  }
  // ---------------------------------------------------------------------
  // The reference outcome of a decode call

  /** The left-channel segments `decode` collects, one per frame. */
  function Lefts<T>(frames: seq<Frame<T>>): seq<seq<T>>
  {
    if frames == [] then [] else Lefts(frames[..|frames| - 1]) + [frames[|frames| - 1].left]
  }

  /** The right-channel segments `decode` collects, one per frame. */
  function Rights<T>(frames: seq<Frame<T>>): seq<seq<T>>
  {
    if frames == [] then [] else Rights(frames[..|frames| - 1]) + [frames[|frames| - 1].right]
  }

  /** The running total `samplesDecoded`: the sum of the positive step codes. */
  function Total<T>(frames: seq<Frame<T>>): nat
  {
    if frames == [] then 0 else Total(frames[..|frames| - 1]) + |frames[|frames| - 1].left|
  }

  /** The total is the length of each concatenated channel. */
  lemma {:induction false} TotalIsChannelLength<T>(frames: seq<Frame<T>>)
    requires forall i :: 0 <= i < |frames| ==> WellFormedFrame(frames[i])
    ensures |Concat(Lefts(frames))| == Total(frames)
    ensures |Concat(Rights(frames))| == Total(frames)
    decreases |frames|
  {
    if frames != [] {
      var init, last := frames[..|frames| - 1], frames[|frames| - 1];
      TotalIsChannelLength(init);
      assert Lefts(frames) == Lefts(init) + [last.left];
      assert Rights(frames) == Rights(init) + [last.right];
      ConcatAppend(Lefts(init), last.left);
      ConcatAppend(Rights(init), last.right);
    }
  }

  lemma FramesAppend<T>(frames: seq<Frame<T>>, f: Frame<T>)
    ensures Lefts(frames + [f]) == Lefts(frames) + [f.left]
    ensures Rights(frames + [f]) == Rights(frames) + [f.right]
    ensures Total(frames + [f]) == Total(frames) + |f.left|
  {
    assert (frames + [f])[..|frames|] == frames;
  }

  /** Progress of the decode loop over a list of chunks. */
  datatype Fed<T> = Fed(
    stream: seq<seq<Byte>>,       // chunks the native decoder has accepted
    attempted: nat,               // chunks handed to enqueue
    frames: seq<Frame<T>>,        // segments drained, in order
    failure: Option<DecodeError>) // the error that ended the loop, if any

  function Join<T>(frames: seq<Frame<T>>, n: nat, fed: Fed<T>): Fed<T>
  {
    Fed(fed.stream, n + fed.attempted, frames + fed.frames, fed.failure)
  }

  /** Enqueue each chunk and drain after it, stopping at the first rejected
      enqueue or negative step code. */
  function Feed<T>(codec: Codec<T>, stream: seq<seq<Byte>>, chunks: seq<seq<Byte>>): (fed: Fed<T>)
    ensures fed.attempted <= |chunks|
    ensures fed.failure.None? ==> fed.attempted == |chunks|
    ensures fed.failure.Some? ==> 1 <= fed.attempted
    decreases |chunks|
  {
    if chunks == [] then Fed(stream, 0, [], None)
    else
      var reply := codec(stream + [chunks[0]]);
      if !reply.accepted then Fed(stream, 1, [], Some(EnqueueFailed))
      else if reply.final < 0 then
        Fed(stream + [chunks[0]], 1, reply.frames, Some(DecodeFailed(reply.final)))
      else
        Join(reply.frames, 1, Feed(codec, stream + [chunks[0]], chunks[1..]))
  }

  /** The stream after the first chunk, extended by `m` more, is the stream
      extended by the first `m + 1` chunks. */
  lemma StreamSplice(stream: seq<seq<Byte>>, chunks: seq<seq<Byte>>, m: nat)
    requires m < |chunks|
    ensures (stream + [chunks[0]]) + chunks[1..][..m] == stream + chunks[..m + 1]
  {
    assert chunks[..m + 1] == [chunks[0]] + chunks[1..][..m];
  }

  /** The native stream grows by exactly the accepted chunks: all of them when
      feeding completes, all attempted ones when a decode step fails, and all
      but the last attempted one when enqueue rejects it. Only negative codes
      end a drain with an error, and feeding never reports invalid input. */
  lemma {:induction false} FeedStream<T>(codec: Codec<T>, stream: seq<seq<Byte>>, chunks: seq<seq<Byte>>)
    ensures var fed := Feed(codec, stream, chunks);
      && (fed.failure.None? ==> fed.stream == stream + chunks)
      && (fed.failure.Some? ==> !fed.failure.value.InvalidInput?)
      && (fed.failure == Some(EnqueueFailed) ==> fed.stream == stream + chunks[..fed.attempted - 1])
      && (fed.failure.Some? && fed.failure.value.DecodeFailed? ==>
            fed.stream == stream + chunks[..fed.attempted] && fed.failure.value.code < 0)
    decreases |chunks|
  {
    if chunks != [] {
      var reply := codec(stream + [chunks[0]]);
      if reply.accepted && reply.final >= 0 {
        var next := stream + [chunks[0]];
        FeedStream(codec, next, chunks[1..]);
        var rest := Feed(codec, next, chunks[1..]);
        StreamSplice(stream, chunks, |chunks| - 1);
        assert chunks[1..][..|chunks| - 1] == chunks[1..] && chunks[..|chunks|] == chunks;
        if rest.failure.Some? {
          StreamSplice(stream, chunks, rest.attempted - 1);
          StreamSplice(stream, chunks, rest.attempted);
        }
      } else if reply.accepted {
        assert chunks[..1] == [chunks[0]];
      } else {
        assert chunks[..0] == [];
      }
    }
  }

  /** Chunk `k` passes: the native decoder accepts it after the chunks before
      it, and the drain that follows ends with a non-negative code. */
  predicate Passes<T>(codec: Codec<T>, stream: seq<seq<Byte>>, chunks: seq<seq<Byte>>, k: nat)
    requires k < |chunks|
  {
    var reply := codec(stream + chunks[..k + 1]);
    reply.accepted && reply.final >= 0
  }

  /** Each failure has its cause: `EnqueueFailed` means the native decoder
      rejected the last attempted chunk, and `DecodeFailed(c)` carries the
      final step code for the stream that includes the last chunk. Every
      chunk before the one that failed passed, and on success every chunk
      passed. */
  lemma {:induction false} FeedFailure<T>(codec: Codec<T>, stream: seq<seq<Byte>>, chunks: seq<seq<Byte>>)
    ensures var fed := Feed(codec, stream, chunks);
      && (fed.failure == Some(EnqueueFailed) ==>
            !codec(fed.stream + [chunks[fed.attempted - 1]]).accepted)
      && (fed.failure.Some? && fed.failure.value.DecodeFailed? ==>
            codec(fed.stream).accepted && fed.failure.value.code == codec(fed.stream).final)
      && (fed.failure.Some? ==> forall k :: 0 <= k < fed.attempted - 1 ==> Passes(codec, stream, chunks, k))
      && (fed.failure.None? ==> forall k :: 0 <= k < |chunks| ==> Passes(codec, stream, chunks, k))
    decreases |chunks|
  {
    if chunks != [] {
      var fed := Feed(codec, stream, chunks);
      var next := stream + [chunks[0]];
      var reply := codec(next);
      assert stream + chunks[..1] == next;
      if reply.accepted && reply.final >= 0 {
        var rest := Feed(codec, next, chunks[1..]);
        FeedFailure(codec, next, chunks[1..]);
        assert fed == Join(reply.frames, 1, rest);
        if rest.failure == Some(EnqueueFailed) {
          assert chunks[1..][rest.attempted - 1] == chunks[fed.attempted - 1];
        }
        forall k | 0 <= k < |chunks| && (k < fed.attempted - 1 || fed.failure.None?)
          ensures Passes(codec, stream, chunks, k)
        {
          if k > 0 {
            assert Passes(codec, next, chunks[1..], k - 1);
            StreamSplice(stream, chunks, k);
          }
        }
      }
    }
  }

  /** Feeding resumes at `offset`: the next chunk is one arena's worth of the
      remaining bytes (or all of them), followed by the chunks of the rest. */
  lemma ChunksFrom(data: seq<Byte>, offset: nat)
    requires offset < |data|
    ensures var size := Min(InputArenaLength, |data| - offset);
      Chunks(data[offset..]) == [data[offset..offset + size]] + Chunks(data[offset + size..])
  {
    var size := Min(InputArenaLength, |data| - offset);
    assert data[offset..][..size] == data[offset..offset + size];
    assert data[offset..][size..] == data[offset + size..];
  }

  lemma PrefixStep<X>(a: seq<X>, b: seq<X>, k: nat)
    requires k < |b|
    ensures a + b[..k + 1] == (a + b[..k]) + [b[k]]
  {
    assert b[..k + 1] == b[..k] + [b[k]];
  }

  lemma AppendAssoc<X>(a: seq<X>, x: X, b: seq<X>)
    ensures (a + [x]) + b == a + ([x] + b)
  {
  }

  lemma PrefixOfAppend<X>(a: seq<X>, b: seq<X>, c: seq<X>)
    requires a + b == c
    ensures c[..|a|] == a
  {
    assert c[..|a|] == (a + b)[..|a|];
  }

  /** Feeding one more chunk after `frames` and `n` attempts: it ends the
      feed on a rejected enqueue or a negative step code, and otherwise the
      feed resumes after it with the chunk's frames appended. */
  lemma FeedCons<T>(codec: Codec<T>, stream: seq<seq<Byte>>, chunk: seq<Byte>, rest: seq<seq<Byte>>,
                    frames: seq<Frame<T>>, n: nat)
    ensures var reply := codec(stream + [chunk]);
      Join(frames, n, Feed(codec, stream, [chunk] + rest)) ==
        if !reply.accepted then Fed(stream, n + 1, frames, Some(EnqueueFailed))
        else if reply.final < 0 then Fed(stream + [chunk], n + 1, frames + reply.frames, Some(DecodeFailed(reply.final)))
        else Join(frames + reply.frames, n + 1, Feed(codec, stream + [chunk], rest))
  {
    assert ([chunk] + rest)[0] == chunk;
    assert ([chunk] + rest)[1..] == rest;
    assert frames + [] == frames;
    var reply := codec(stream + [chunk]);
    if reply.accepted && reply.final >= 0 {
      var tail := Feed(codec, stream + [chunk], rest);
      assert frames + (reply.frames + tail.frames) == (frames + reply.frames) + tail.frames;
    }
  }

  lemma {:induction false} FeedFramesWellFormed<T>(codec: Codec<T>, stream: seq<seq<Byte>>, chunks: seq<seq<Byte>>)
    requires WellFormedCodec(codec)
    ensures forall i :: 0 <= i < |Feed(codec, stream, chunks).frames| ==>
      WellFormedFrame(Feed(codec, stream, chunks).frames[i])
    decreases |chunks|
  {
    if chunks != [] {
      var reply := codec(stream + [chunks[0]]);
      assert WellFormedReply(reply);
      if reply.accepted && reply.final >= 0 {
        FeedFramesWellFormed(codec, stream + [chunks[0]], chunks[1..]);
      }
    }
  }

  /** The decoded-audio value: two channel arrays and the sample count. */
  datatype DecodedAudio<T> = DecodedAudio(channelData: seq<seq<T>>, samplesDecoded: nat)

  /** Outcome of one `decode` call: its result, the native stream afterwards,
      and the chunks handed to enqueue, in order. */
  datatype Outcome<T> = Outcome(
    result: Result<DecodedAudio<T>, DecodeError>,
    stream: seq<seq<Byte>>,
    enqueued: seq<seq<Byte>>)

  function DecodeSpec<T>(value: Input, codec: Codec<T>, stream: seq<seq<Byte>>): Outcome<T>
  {
    match value
    case NotBytes(t) => Outcome(Failure(InvalidInput(t)), stream, [])
    case Bytes(data) =>
      var chunks := Chunks(data);
      var fed := Feed(codec, stream, chunks);
      if fed.failure.Some? then
        Outcome(Failure(fed.failure.value), fed.stream, chunks[..fed.attempted])
      else
        var audio := DecodedAudio([Concat(Lefts(fed.frames)), Concat(Rights(fed.frames))], Total(fed.frames));
        Outcome(Success(audio), fed.stream, chunks)
  }

  /** A successful decode returns two channels, each exactly `samplesDecoded`
      long, made of the drained segments in order. */
  lemma DecodeOutputShape<T>(value: Input, codec: Codec<T>, stream: seq<seq<Byte>>)
    requires WellFormedCodec(codec)
    ensures var out := DecodeSpec(value, codec, stream);
      out.result.Success? ==>
        && |out.result.value.channelData| == 2
        && |out.result.value.channelData[0]| == out.result.value.samplesDecoded
        && |out.result.value.channelData[1]| == out.result.value.samplesDecoded
  {
    if value.Bytes? {
      var fed := Feed(codec, stream, Chunks(value.bytes));
      FeedFramesWellFormed(codec, stream, Chunks(value.bytes));
      TotalIsChannelLength(fed.frames);
    }
  }

  /** Input that is not a `Uint8Array` fails with InvalidInput before any
      chunk reaches the native decoder. */
  lemma DecodeRejectsNonBytes<T>(typeName: string, codec: Codec<T>, stream: seq<seq<Byte>>)
    ensures DecodeSpec(NotBytes(typeName), codec, stream) == Outcome(Failure(InvalidInput(typeName)), stream, [])
  {
  }

  /** Empty input enqueues nothing and yields two empty channels. */
  lemma DecodeEmptyInput<T>(codec: Codec<T>, stream: seq<seq<Byte>>)
    ensures DecodeSpec(Bytes([]), codec, stream) == Outcome(Success(DecodedAudio([[], []], 0)), stream, [])
  {
  }

  /** The chunks enqueued are a prefix of `Chunks(data)`; on success they are
      all of them and cover the input exactly; the native stream grows only by
      chunks that were accepted. */
  lemma DecodeEnqueuesChunks<T>(data: seq<Byte>, codec: Codec<T>, stream: seq<seq<Byte>>)
    ensures var out := DecodeSpec(Bytes(data), codec, stream);
      && out.enqueued <= Chunks(data)
      && (out.result.Success? ==> out.enqueued == Chunks(data) && Concat(out.enqueued) == data
                                  && out.stream == stream + out.enqueued)
      && (out.result == Failure(EnqueueFailed) ==> out.stream == stream + out.enqueued[..|out.enqueued| - 1])
      && (out.result.Failure? && out.result.error.DecodeFailed? ==> out.stream == stream + out.enqueued)
  {
    FeedStream(codec, stream, Chunks(data));
    ChunksCover(data);
  }

  // ---------------------------------------------------------------------
  // concatFloat32

  /** `OggOpusDecoder.concatFloat32`: a zero-filled array of `length`
      elements, each buffer copied in at the running offset. `TypedArray.set`
      throws a RangeError (here: `fits` is false) when a buffer would run past
      the end. */
  method ConcatFloat32<T>(buffers: seq<seq<T>>, length: nat, zero: T) returns (ret: array<T>, fits: bool)
    ensures fresh(ret) && ret.Length == length
    ensures fits <==> |Concat(buffers)| <= length
    ensures fits ==> ret[..] == Concat(buffers) + seq(length - |Concat(buffers)|, _ => zero)
  {
    ret := new T[length](_ => zero);
    var offset := 0;
    for i := 0 to |buffers|
      invariant offset == |Concat(buffers[..i])| <= length
      invariant ret[..offset] == Concat(buffers[..i])
      invariant forall j :: offset <= j < length ==> ret[j] == zero
    {
      var buf := buffers[i];
      assert buffers[..i + 1] == buffers[..i] + [buf];
      ConcatAppend(buffers[..i], buf);
      if offset + |buf| > length {
        ConcatSplit(buffers, i + 1);
        return ret, false;
      }
      forall j | 0 <= j < |buf| {
        ret[offset + j] := buf[j];
      }
      offset := offset + |buf|;
    }
    assert buffers[..|buffers|] == buffers;
    fits := true;
    assert ret[..] == ret[..offset] + ret[offset..];
  }

  // ---------------------------------------------------------------------
  // The decoder instance

  class OggOpusDecoder<T(0)> {
    /** `_input`, the 64 KiB input arena */
    var input: array<Byte>
    /** `_leftArr` and `_rightArr`, the output arenas */
    var leftArr: array<T>
    var rightArr: array<T>
    /** tombstone: `free()` has released the native decoder and the arenas */
    var freed: bool
    /** state of the native decoder `_decoder`: the chunks it has accepted
        since it was created, and how many decode steps have run since the
        last accepted chunk */
    var stream: seq<seq<Byte>>
    var drained: nat
    /** every chunk handed to enqueue by this instance, accepted or not */
    ghost var enqueueLog: seq<seq<Byte>>

    ghost predicate Valid()
      reads this
    {
      && input.Length == InputArenaLength
      && leftArr.Length == OutputArenaLength
      && rightArr.Length == OutputArenaLength
      && leftArr != rightArr
      && input as object != leftArr && input as object != rightArr
    }

    static method AllocateArenas() returns (input: array<Byte>, left: array<T>, right: array<T>)
      ensures fresh(input) && fresh(left) && fresh(right)
      ensures input.Length == InputArenaLength
      ensures left.Length == OutputArenaLength && right.Length == OutputArenaLength
      ensures left != right && input as object != left && input as object != right
    {
      input := new Byte[InputArenaLength];
      left := new T[OutputArenaLength];
      right := new T[OutputArenaLength];
    }

    /** `_init`: a fresh native decoder and three fresh arenas. */
    constructor ()
      ensures Valid() && !freed && stream == [] && drained == 0 && enqueueLog == []
      ensures fresh(input) && fresh(leftArr) && fresh(rightArr)
    {
      var i, l, r := AllocateArenas();
      input, leftArr, rightArr := i, l, r;
      freed := false;
      stream := [];
      drained := 0;
      enqueueLog := [];
    }

    /** `free`: releases the native decoder and the arenas. */
    method Free()
      requires Valid() && !freed
      modifies this`freed
      ensures Valid() && freed
    {
      freed := true;
    }

    /** `reset`: `free` followed by `_init`; the native decoder starts over
        with no accepted chunk. */
    method Reset()
      requires Valid() && !freed
      modifies this
      ensures Valid() && !freed && stream == [] && drained == 0 && enqueueLog == old(enqueueLog)
      ensures fresh(input) && fresh(leftArr) && fresh(rightArr)
    {
      Free();
      input, leftArr, rightArr := AllocateArenas();
      freed := false;
      stream := [];
      drained := 0;
    }

    /** `_ogg_opus_decoder_enqueue(_decoder, _inputPtr, size)`: the native
        decoder sees the first `size` bytes of the input arena. */
    method Enqueue(codec: Codec<T>, size: nat) returns (ok: bool)
      requires Valid() && !freed && size <= input.Length
      modifies this`stream, this`drained, this`enqueueLog
      ensures enqueueLog == old(enqueueLog) + [input[..size]]
      ensures ok == codec(old(stream) + [input[..size]]).accepted
      ensures stream == (if ok then old(stream) + [input[..size]] else old(stream))
      ensures drained == (if ok then 0 else old(drained))
    {
      enqueueLog := enqueueLog + [input[..size]];
      ok := codec(stream + [input[..size]]).accepted;
      if ok {
        stream := stream + [input[..size]];
        drained := 0;
      }
    }

    /** `_ogg_opus_decode_float_stereo_deinterleaved(_decoder, _leftPtr,
        _rightPtr)`: the next frame, if any, is written to the start of both
        output arenas and its length returned; otherwise the final code. */
    method DecodeStep(codec: Codec<T>) returns (r: int)
      requires Valid() && !freed && WellFormedReply(codec(stream))
      modifies this`drained, leftArr, rightArr
      ensures var reply := codec(stream);
        if old(drained) < |reply.frames| then
          && drained == old(drained) + 1
          && r == |reply.frames[old(drained)].left|
          && leftArr[..r] == reply.frames[old(drained)].left
          && rightArr[..r] == reply.frames[old(drained)].right
          && leftArr[r..] == old(leftArr[r..]) && rightArr[r..] == old(rightArr[r..])
        else
          && r == reply.final && drained == old(drained)
          && leftArr[..] == old(leftArr[..]) && rightArr[..] == old(rightArr[..])
    {
      var reply := codec(stream);
      if drained < |reply.frames| {
        var frame := reply.frames[drained];
        assert WellFormedFrame(frame);
        forall i | 0 <= i < |frame.left| {
          leftArr[i] := frame.left[i];
        }
        forall i | 0 <= i < |frame.right| {
          rightArr[i] := frame.right[i];
        }
        r := |frame.left|;
        drained := drained + 1;
      } else {
        r := reply.final;
      }
    }

    /** Copies `data[offset .. offset + size]` to the start of the input arena. */
    method CopyToInput(data: seq<Byte>, offset: nat, size: nat)
      requires Valid() && offset + size <= |data| && size <= input.Length
      modifies input
      ensures input[..size] == data[offset..offset + size]
      ensures input[size..] == old(input[size..])
    {
      forall i | 0 <= i < size {
        input[i] := data[offset + i];
      }
    }

    /** The inner loop of `decode`: step the native decoder until a step
        returns 0 or less, appending each written segment of the output arenas
        to the channel lists and its length to the running total. */
    method Drain(codec: Codec<T>, decodedLeft: seq<seq<T>>, decodedRight: seq<seq<T>>, samplesDecoded: nat,
                 ghost frames: seq<Frame<T>>)
      returns (lefts: seq<seq<T>>, rights: seq<seq<T>>, total: nat, r: int, ghost framesOut: seq<Frame<T>>)
      requires Valid() && !freed && drained == 0 && WellFormedReply(codec(stream))
      requires decodedLeft == Lefts(frames) && decodedRight == Rights(frames) && samplesDecoded == Total(frames)
      modifies this`drained, leftArr, rightArr
      ensures framesOut == frames + codec(stream).frames
      ensures lefts == Lefts(framesOut) && rights == Rights(framesOut) && total == Total(framesOut)
      ensures r == codec(stream).final
    {
      ghost var reply := codec(stream);
      lefts, rights, total, framesOut := decodedLeft, decodedRight, samplesDecoded, frames;
      ghost var k := 0;
      r := DecodeStep(codec);
      while r > 0
        invariant Valid() && !freed && reply == codec(stream)
        invariant 0 <= k <= |reply.frames|
        invariant r > 0 ==> k < |reply.frames| && drained == k + 1 && r == |reply.frames[k].left|
                            && leftArr[..r] == reply.frames[k].left && rightArr[..r] == reply.frames[k].right
        invariant r <= 0 ==> k == |reply.frames| && r == reply.final
        invariant framesOut == frames + reply.frames[..k]
        invariant lefts == Lefts(framesOut) && rights == Rights(framesOut) && total == Total(framesOut)
        decreases |reply.frames| - k
      {
        FramesAppend(framesOut, reply.frames[k]);
        PrefixStep(frames, reply.frames, k);
        lefts := lefts + [leftArr[..r]];
        rights := rights + [rightArr[..r]];
        total := total + r;
        framesOut := framesOut + [reply.frames[k]];
        k := k + 1;
        r := DecodeStep(codec);
      }
      assert reply.frames[..k] == reply.frames;
    }

    /** One pass of the outer loop of `decode`: copy the chunk
        `data[offset .. offset + size]` into the input arena, enqueue it, and
        drain. The reference `Feed` over this chunk followed by any `rest`
        either ends here with `failure` or continues with `rest` from the new
        native state. */
    method FeedChunk(codec: Codec<T>, data: seq<Byte>, offset: nat, size: nat,
                     decodedLeft: seq<seq<T>>, decodedRight: seq<seq<T>>, samplesDecoded: nat,
                     ghost frames: seq<Frame<T>>, ghost n: nat, ghost rest: seq<seq<Byte>>,
                     ghost remaining: seq<seq<Byte>>)
      returns (lefts: seq<seq<T>>, rights: seq<seq<T>>, total: nat, failure: Option<DecodeError>,
               ghost framesOut: seq<Frame<T>>)
      requires Valid() && !freed && WellFormedCodec(codec)
      requires offset + size <= |data| && size <= InputArenaLength
      requires decodedLeft == Lefts(frames) && decodedRight == Rights(frames) && samplesDecoded == Total(frames)
      requires remaining == [data[offset..offset + size]] + rest
      modifies this`stream, this`drained, this`enqueueLog, input, leftArr, rightArr
      ensures Valid() && !freed
      ensures enqueueLog == old(enqueueLog) + [data[offset..offset + size]]
      ensures lefts == Lefts(framesOut) && rights == Rights(framesOut) && total == Total(framesOut)
      ensures failure.None? ==> Join(frames, n, Feed(codec, old(stream), remaining))
                                == Join(framesOut, n + 1, Feed(codec, stream, rest))
      ensures failure.Some? ==> Join(frames, n, Feed(codec, old(stream), remaining))
                                == Fed(stream, n + 1, framesOut, failure)
    {
      CopyToInput(data, offset, size);
      FeedCons(codec, stream, input[..size], rest, frames, n);
      lefts, rights, total, framesOut := decodedLeft, decodedRight, samplesDecoded, frames;
      var ok := Enqueue(codec, size);
      if !ok {
        return lefts, rights, total, Some(EnqueueFailed), framesOut;
      }
      var r;
      lefts, rights, total, r, framesOut := Drain(codec, decodedLeft, decodedRight, samplesDecoded, frames);
      failure := if r < 0 then Some(DecodeFailed(r)) else None;
    }

    /** The outer loop of `decode`: `data` is cut into `Chunks(data)` and fed
        chunk by chunk until the end or the first failure; the outcome is that
        of the reference `Feed`. */
    method FeedAll(codec: Codec<T>, data: seq<Byte>)
      returns (decodedLeft: seq<seq<T>>, decodedRight: seq<seq<T>>, samplesDecoded: nat,
               failure: Option<DecodeError>, ghost frames: seq<Frame<T>>, ghost attempts: seq<seq<Byte>>)
      requires Valid() && !freed && WellFormedCodec(codec)
      modifies this`stream, this`drained, this`enqueueLog, input, leftArr, rightArr
      ensures Valid() && !freed
      ensures Feed(codec, old(stream), Chunks(data)) == Fed(stream, |attempts|, frames, failure)
      ensures attempts == Chunks(data)[..|attempts|]
      ensures enqueueLog == old(enqueueLog) + attempts
      ensures decodedLeft == Lefts(frames) && decodedRight == Rights(frames) && samplesDecoded == Total(frames)
    {
      decodedLeft, decodedRight, samplesDecoded, failure := [], [], 0, None;
      frames, attempts := [], [];
      var offset: nat := 0;
      ghost var whole := Feed(codec, stream, Chunks(data));
      ghost var log0 := enqueueLog;
      while offset < |data| && failure.None?
        invariant Valid() && !freed
        invariant offset <= |data|
        invariant attempts + Chunks(data[offset..]) == Chunks(data)
        invariant enqueueLog == log0 + attempts
        invariant decodedLeft == Lefts(frames) && decodedRight == Rights(frames) && samplesDecoded == Total(frames)
        invariant failure.None? ==> whole == Join(frames, |attempts|, Feed(codec, stream, Chunks(data[offset..])))
        invariant failure.Some? ==> whole == Fed(stream, |attempts|, frames, failure)
        decreases |data| - offset
      {
        decodedLeft, decodedRight, samplesDecoded, failure, frames, attempts, offset :=
          FeedNext(codec, data, offset, decodedLeft, decodedRight, samplesDecoded, frames, attempts, whole, log0);
      }
      if failure.None? {
        assert Chunks(data[offset..]) == [];
        assert Feed(codec, stream, []) == Fed(stream, 0, [], None);
        assert frames + [] == frames;
      }
      PrefixOfAppend(attempts, Chunks(data[offset..]), Chunks(data));
    }

    /** One iteration of the outer loop of `decode`, stated as the loop
        invariant it keeps. */
    method FeedNext(codec: Codec<T>, data: seq<Byte>, offset: nat,
                    decodedLeft: seq<seq<T>>, decodedRight: seq<seq<T>>, samplesDecoded: nat,
                    ghost frames: seq<Frame<T>>, ghost attempts: seq<seq<Byte>>, ghost whole: Fed<T>,
                    ghost log0: seq<seq<Byte>>)
      returns (lefts: seq<seq<T>>, rights: seq<seq<T>>, total: nat, failure: Option<DecodeError>,
               ghost framesOut: seq<Frame<T>>, ghost attemptsOut: seq<seq<Byte>>, offsetOut: nat)
      requires Valid() && !freed && WellFormedCodec(codec)
      requires offset < |data|
      requires attempts + Chunks(data[offset..]) == Chunks(data)
      requires enqueueLog == log0 + attempts
      requires decodedLeft == Lefts(frames) && decodedRight == Rights(frames) && samplesDecoded == Total(frames)
      requires whole == Join(frames, |attempts|, Feed(codec, stream, Chunks(data[offset..])))
      modifies this`stream, this`drained, this`enqueueLog, input, leftArr, rightArr
      ensures Valid() && !freed
      ensures offset < offsetOut <= |data|
      ensures attemptsOut + Chunks(data[offsetOut..]) == Chunks(data)
      ensures enqueueLog == log0 + attemptsOut
      ensures lefts == Lefts(framesOut) && rights == Rights(framesOut) && total == Total(framesOut)
      ensures failure.None? ==> whole == Join(framesOut, |attemptsOut|, Feed(codec, stream, Chunks(data[offsetOut..])))
      ensures failure.Some? ==> whole == Fed(stream, |attemptsOut|, framesOut, failure)
    {
      var size := Min(input.Length, |data| - offset);
      ghost var chunk := data[offset..offset + size];
      ghost var remaining := Chunks(data[offset..]);
      ghost var rest := Chunks(data[offset + size..]);
      ChunksFrom(data, offset);
      lefts, rights, total, failure, framesOut :=
        FeedChunk(codec, data, offset, size, decodedLeft, decodedRight, samplesDecoded, frames, |attempts|, rest,
                  remaining);
      attemptsOut := attempts + [chunk];
      AppendAssoc(attempts, chunk, rest);
      offsetOut := offset + size;
      assert Chunks(data[offsetOut..]) == rest;
    }

    /** `decode`: validates the input, feeds it chunk by chunk, and joins the
        drained segments into two channel arrays; the outcome is `DecodeSpec`. */
    method Decode(value: Input, codec: Codec<T>, zero: T) returns (res: Result<DecodedAudio<T>, DecodeError>)
      requires Valid() && !freed && WellFormedCodec(codec)
      modifies this`stream, this`drained, this`enqueueLog, input, leftArr, rightArr
      ensures Valid() && !freed
      ensures res == DecodeSpec(value, codec, old(stream)).result
      ensures stream == DecodeSpec(value, codec, old(stream)).stream
      ensures enqueueLog == old(enqueueLog) + DecodeSpec(value, codec, old(stream)).enqueued
    {
      if value.NotBytes? {
        return Failure(InvalidInput(value.typeName));
      }
      var data := value.bytes;
      var decodedLeft, decodedRight, samplesDecoded, failure, frames, attempts := FeedAll(codec, data);
      if failure.Some? {
        return Failure(failure.value);
      }
      FeedFramesWellFormed(codec, old(stream), Chunks(data));
      TotalIsChannelLength(frames);
      var left, fitsLeft := ConcatFloat32(decodedLeft, samplesDecoded, zero);
      var right, fitsRight := ConcatFloat32(decodedRight, samplesDecoded, zero);
      assert left[..] == Concat(decodedLeft) && right[..] == Concat(decodedRight);
      res := Success(DecodedAudio([left[..], right[..]], samplesDecoded));
    }
  }

  /** After `reset`, an instance decodes any input exactly as a freshly
      constructed one does: no codec state survives the reset. */
  method ResetMatchesFresh<T(0)>(first: Input, value: Input, codec: Codec<T>, zero: T)
    returns (afterReset: Result<DecodedAudio<T>, DecodeError>, onFresh: Result<DecodedAudio<T>, DecodeError>)
    requires WellFormedCodec(codec)
    ensures afterReset == onFresh
  {
    var used := new OggOpusDecoder<T>();
    var ignored := used.Decode(first, codec, zero);
    used.Reset();
    afterReset := used.Decode(value, codec, zero);
    var pristine := new OggOpusDecoder<T>();
    onFresh := pristine.Decode(value, codec, zero);
  }
}
