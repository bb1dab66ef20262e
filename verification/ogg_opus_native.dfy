/** The native side of the bridge (ogg_opus_decoder.c / ogg_opus_decoder.h):
    a fixed 64 KiB input queue that libopusfile reads through a callback, and
    the routines that turn the codec's interleaved PCM into one array per
    channel.

    Pointers become indices into `queue`, the storage they address: `start` is
    index 0 and `cursor` is the index of the next unread byte. As intended,
    `queue` is the decoder's own `_data`; as written, it is not (see
    `CreateAsWritten`). libopusfile itself is not modelled: each
    entry point receives what the codec would return as parameters
    (`openStream` for op_open_callbacks, `decodedCount`/`decodedPcm` for
    op_read_float_stereo and op_read_float, `wanted` for how many bytes the
    codec asks the read callback for during one step). Samples are an opaque
    type `T`, since they are only copied. */
module OggOpusNative {
  import opened Common

  /** Size of `ByteBuffer._data`: one maximum-size Ogg page (just under 64 KiB). */
  const BufferCapacity: nat := 64 * 1024
  /** 120 ms at 48 kHz: the most samples per channel one decode step yields. */
  const MaxFrameSamples: nat := 120 * 48
  /** Size of the interleaved `pcm` scratch buffer: 120 ms at 48 kHz, two channels. */
  const PcmCapacity: nat := 120 * 48 * 2
  /** The general deinterleave routine receives eight output pointers. */
  const MaxChannels: nat := 8

  /** Channel `c` of `n` interleaved frames of `channels` samples each. */
  function Channel<T>(pcm: seq<T>, channels: nat, c: nat, n: nat): seq<T>
    requires c < channels && n * channels <= |pcm|
  {
    seq(n, i requires 0 <= i < n => ChannelIndexBound(i, n, channels, c); pcm[Slot(i, channels, c)])
  }

  /** Index, in an interleaved buffer of `channels` channels, of sample `i` of
      channel `c`. */
  function Slot(i: nat, channels: nat, c: nat): nat
  {
    i * channels + c
  }

  /** Every sample of the first `n` frames lies inside a buffer of `len` elements. */
  ghost predicate SlotsWithin(n: nat, channels: nat, len: nat)
  {
    forall i, c :: 0 <= i < n && 0 <= c < channels ==> Slot(i, channels, c) < len
  }

  lemma SlotsWithinSize(n: nat, channels: nat, len: nat)
    requires n * channels <= len
    ensures SlotsWithin(n, channels, len)
  {
    forall i, c | 0 <= i < n && 0 <= c < channels
      ensures Slot(i, channels, c) < len
    {
      MulMono(i + 1, n, channels);
    }
  }

  /** Interleaving two equally long channels sample by sample. */
  function Interleave2<T>(left: seq<T>, right: seq<T>): (pcm: seq<T>)
    requires |left| == |right|
    ensures |pcm| == 2 * |left|
    decreases |left|
  {
    if left == [] then [] else [left[0], right[0]] + Interleave2(left[1..], right[1..])
  }

  lemma ChannelIndexBound(i: nat, n: nat, channels: nat, c: nat)
    requires i < n && c < channels
    ensures Slot(i, channels, c) < n * channels
  {
    assert (i + 1) * channels <= n * channels by {
      assert i + 1 <= n;
      MulMono(i + 1, n, channels);
    }
  }

  lemma MulCancel(a: nat, b: nat, k: nat)
    requires 1 <= k && a * k <= b * k
    ensures a <= b
  {
    if a > b {
      MulMono(b + 1, a, k);
    }
  }

  lemma MulMono(a: nat, b: nat, k: nat)
    requires a <= b
    ensures a * k <= b * k
  {
  }

  /** Element `2i` of an interleaved stereo buffer is left sample `i`, element
      `2i+1` is right sample `i`. */
  lemma {:induction false} Interleave2At<T>(left: seq<T>, right: seq<T>, i: nat)
    requires |left| == |right| && i < |left|
    ensures Interleave2(left, right)[2 * i] == left[i]
    ensures Interleave2(left, right)[2 * i + 1] == right[i]
    decreases i
  {
    if i > 0 {
      Interleave2At(left[1..], right[1..], i - 1);
    }
  }

  /** Deinterleaving what was interleaved gives back both channels. */
  lemma DeinterleaveInterleave<T>(left: seq<T>, right: seq<T>)
    requires |left| == |right|
    ensures Channel(Interleave2(left, right), 2, 0, |left|) == left
    ensures Channel(Interleave2(left, right), 2, 1, |left|) == right
  {
    var pcm := Interleave2(left, right);
    var l, r := Channel(pcm, 2, 0, |left|), Channel(pcm, 2, 1, |left|);
    forall i | 0 <= i < |left|
      ensures l[i] == left[i] && r[i] == right[i]
    {
      Interleave2At(left, right, i);
      assert Slot(i, 2, 0) == 2 * i && Slot(i, 2, 1) == 2 * i + 1;
    }
  }

  /** Channel `c` of a stereo buffer starts with element `c` and continues
      with channel `c` of the buffer after its first frame. */
  lemma ChannelStereoTail<T>(pcm: seq<T>, c: nat, n: nat)
    requires c < 2 && 0 < n && 2 * n <= |pcm|
    ensures Channel(pcm, 2, c, n)[0] == pcm[c]
    ensures Channel(pcm, 2, c, n)[1..] == Channel(pcm[2..], 2, c, n - 1)
  {
    var whole, tail := Channel(pcm, 2, c, n), Channel(pcm[2..], 2, c, n - 1);
    assert Slot(0, 2, c) == c;
    forall i | 0 <= i < n - 1
      ensures whole[1..][i] == tail[i]
    {
      assert Slot(i + 1, 2, c) == Slot(i, 2, c) + 2;
    }
  }

  /** Interleaving the two deinterleaved channels rebuilds the consumed part of
      the scratch buffer: the stereo deinterleave loses no sample. */
  lemma {:induction false} InterleaveDeinterleave<T>(pcm: seq<T>, n: nat)
    requires 2 * n <= |pcm|
    ensures Interleave2(Channel(pcm, 2, 0, n), Channel(pcm, 2, 1, n)) == pcm[..2 * n]
    decreases n
  {
    if n > 0 {
      var l, r := Channel(pcm, 2, 0, n), Channel(pcm, 2, 1, n);
      InterleaveDeinterleave(pcm[2..], n - 1);
      ChannelStereoTail(pcm, 0, n);
      ChannelStereoTail(pcm, 1, n);
      assert Interleave2(l, r) == [pcm[0], pcm[1]] + Interleave2(l[1..], r[1..]);
      assert pcm[..2 * n] == [pcm[0], pcm[1]] + pcm[2..][..2 * (n - 1)];
    }
  }

  /** The buffer size, in floats, that the general routine passes to
      op_read_float as written: 120 ms at 48 kHz per channel. */
  function ReadRequestAsWritten(channels: nat): nat
  {
    MaxFrameSamples * channels
  }

  /** As written, a six-channel stream whose packets last 60 ms (2880 samples
      per channel) is within the requested size yet does not fit `pcm`. */
  lemma AsWrittenRequestOverflowsScratch()
    ensures 2880 * 6 <= ReadRequestAsWritten(6)
    ensures 2880 * 6 > PcmCapacity
  {
  }

  /** The buffer size passed to op_read_float by the general routine, bounded by
      the real size of `pcm`; for mono and stereo it is the size as written. */
  function ReadRequest(channels: nat): (floats: nat)
    ensures floats <= PcmCapacity
    ensures floats <= MaxFrameSamples * channels
    ensures 1 <= channels <= 2 ==> floats == ReadRequestAsWritten(channels)
  {
    Min(MaxFrameSamples * channels, PcmCapacity)
  }

  /** `OggOpusDecoder` with its embedded `ByteBuffer`. */
  class OggOpusDecoder<T(0)> {
    /** `buffer._data`, the decoder's own 64 KiB of storage */
    var data: array<Byte>
    /** the storage `buffer.start` and `buffer.cursor` point into: `_data`
        itself once created correctly (see `Create` and `CreateAsWritten`) */
    var queue: array<Byte>
    /** `buffer.start`, as an index into `queue` */
    var start: nat
    /** `buffer.cursor`, as an index into `queue` */
    var cursor: nat
    /** `buffer.num_unread` */
    var numUnread: int
    /** `of != NULL`: libopusfile has opened the Ogg stream */
    var open: bool
    /** `pcm`, the interleaved scratch buffer op_read_float* writes */
    var pcm: array<T>

    ghost predicate Valid()
      reads this
    {
      && data.Length == BufferCapacity
      && queue.Length == BufferCapacity
      && pcm.Length == PcmCapacity
      && data as object != pcm as object
      && queue as object != pcm as object
      && start == 0
      && 0 <= numUnread
      && cursor + numUnread <= BufferCapacity
      && (!open ==> cursor == start)
    }

    /** The bytes the read callback has still to hand out, in order. */
    ghost function Unread(): seq<Byte>
      reads this, queue
      requires Valid()
    {
      queue[cursor..cursor + numUnread]
    }

    /** ogg_opus_decoder_create with create_bytebuffer, as intended: no
        stream is open, both pointers are at the start of the decoder's own
        `_data` and nothing is unread. */
    constructor Create()
      ensures Valid() && fresh(data) && fresh(pcm) && queue == data
      ensures !open && start == 0 && cursor == start && numUnread == 0
      ensures Unread() == []
    {
      data := new Byte[BufferCapacity];
      pcm := new T[PcmCapacity];
      queue := data;
      start := 0;
      cursor := 0;
      numUnread := 0;
      open := false;
    }

    /** ogg_opus_decoder_create as written: create_bytebuffer points `start`
        and `cursor` at the `_data` of its own local `ByteBuffer`, and only a
        copy of that local reaches the heap-allocated decoder. The pointers
        therefore address storage other than the decoder's `_data` (a stack
        frame that has returned). */
    constructor CreateAsWritten()
      ensures Valid() && fresh(data) && fresh(queue) && fresh(pcm) && queue != data
      ensures !open && start == 0 && cursor == start && numUnread == 0
    {
      var local := new Byte[BufferCapacity];
      data := new Byte[BufferCapacity];
      pcm := new T[PcmCapacity];
      queue := local;
      start := 0;
      cursor := 0;
      numUnread := 0;
      open := false;
    }

    /** cb_read: copies `min(n, num_unread)` bytes from the cursor into `dst`
        and advances the cursor past them; hands out nothing while no stream is
        open. */
    method ReadCallback(dst: array<Byte>, n: int) returns (got: int)
      requires Valid() && dst != queue
      requires 0 <= n <= dst.Length
      modifies this`cursor, this`numUnread, dst
      ensures Valid()
      ensures !old(open) ==> got == 0 && cursor == old(cursor) && numUnread == old(numUnread)
      ensures !old(open) ==> dst[..] == old(dst[..])
      ensures old(open) ==> got == Min(n, old(numUnread))
      ensures 0 <= got <= n
      ensures cursor == old(cursor) + got && numUnread == old(numUnread) - got
      ensures dst[..got] == old(Unread())[..got] && dst[got..] == old(dst[got..])
      ensures Unread() == old(Unread())[got..]
    {
      if !open {
        return 0;
      }
      got := n;
      if got > numUnread {
        got := numUnread;
      }
      if got != 0 {
        forall i | 0 <= i < got {
          dst[i] := queue[cursor + i];
        }
        cursor := cursor + got;
        numUnread := numUnread - got;
      }
    }

    /** ogg_opus_decoder_enqueue: rejects (returns 0, changes nothing) a chunk
        that would push the unread count past the capacity. Otherwise returns 1
        with the cursor back at `start`; before the stream is open the chunk is
        appended to the unread bytes and the whole collection is offered to
        op_open_callbacks, whose success empties the queue; once open, the chunk
        is written at `start` and its size added to the unread count. */
    method Enqueue(src: array<Byte>, size: nat, openStream: seq<Byte> -> int) returns (ok: int)
      requires Valid() && src != queue && size <= src.Length
      modifies this`cursor, this`numUnread, this`open, queue
      ensures Valid()
      ensures old(numUnread) + size > BufferCapacity ==>
        ok == 0 && cursor == old(cursor) && numUnread == old(numUnread) && open == old(open)
        && queue[..] == old(queue[..])
      ensures old(numUnread) + size <= BufferCapacity ==> ok == 1 && cursor == start
      // before the stream is open: append, then try to open it
      ensures old(numUnread) + size <= BufferCapacity && !old(open) ==>
        && queue[..old(numUnread)] == old(queue[..numUnread])
        && queue[old(numUnread)..old(numUnread) + size] == src[..size]
        && queue[old(numUnread) + size..] == old(queue[numUnread + size..])
        && open == (openStream(old(Unread()) + src[..size]) == 0)
        && numUnread == (if open then 0 else old(numUnread) + size)
      ensures old(numUnread) + size <= BufferCapacity && !old(open) && !open ==>
        Unread() == old(Unread()) + src[..size]
      // once open: overwrite from the start
      ensures old(numUnread) + size <= BufferCapacity && old(open) ==>
        && open
        && queue[..size] == src[..size]
        && queue[size..] == old(queue[size..])
        && numUnread == old(numUnread) + size
      ensures old(numUnread) + size <= BufferCapacity && old(open) && old(numUnread) == 0 ==>
        Unread() == src[..size]
    {
      if numUnread + size > queue.Length {
        return 0;
      }
      cursor := start;
      if !open {
        AppendAndOpen(src, size, openStream);
      } else {
        numUnread := numUnread + size;
        Memcpy(queue, cursor, src, size);
      }
      ok := 1;
    }

    /** The branch of ogg_opus_decoder_enqueue taken before the stream is
        open: the chunk goes after the unread bytes and op_open_callbacks is
        offered all of them. */
    method AppendAndOpen(src: array<Byte>, size: nat, openStream: seq<Byte> -> int)
      requires Valid() && !open && src != queue && size <= src.Length
      requires numUnread + size <= BufferCapacity
      modifies this`numUnread, this`open, queue
      ensures Valid() && cursor == start
      ensures queue[..old(numUnread)] == old(queue[..numUnread])
      ensures queue[old(numUnread)..old(numUnread) + size] == src[..size]
      ensures queue[old(numUnread) + size..] == old(queue[numUnread + size..])
      ensures open == (openStream(old(Unread()) + src[..size]) == 0)
      ensures numUnread == (if open then 0 else old(numUnread) + size)
      ensures !open ==> Unread() == old(Unread()) + src[..size]
    {
      Memcpy(queue, cursor + numUnread, src, size);
      numUnread := numUnread + size;
      assert queue[..numUnread] == old(queue[..numUnread]) + src[..size];
      var err := openStream(queue[cursor..cursor + numUnread]);
      open := err == 0;
      if err == 0 {
        numUnread := 0;
      }
    }

    /** ogg_opus_decode_float_stereo_deinterleaved: returns 0 if no stream is
        open; otherwise the codec reads up to `wanted` queued bytes, writes
        `decodedPcm` into `pcm` and reports `decodedCount`, and sample `i` of
        each channel is copied from `pcm[2i]` (left) and `pcm[2i+1]` (right). */
    method DecodeFloatStereoDeinterleaved(left: array<T>, right: array<T>,
                                          wanted: nat, decodedCount: int, decodedPcm: seq<T>)
      returns (samples: int)
      requires Valid()
      requires left != right && left != pcm && right != pcm
      requires left as object != queue && right as object != queue
      requires MaxFrameSamples <= left.Length && MaxFrameSamples <= right.Length
      // what op_read_float_stereo promises for a buffer of 120*48*2 floats
      requires decodedCount <= MaxFrameSamples && 2 * decodedCount <= |decodedPcm| <= PcmCapacity
      modifies this`cursor, this`numUnread, pcm, left, right
      ensures Valid() && open == old(open)
      ensures !old(open) ==> samples == 0 && cursor == old(cursor) && numUnread == old(numUnread)
      ensures !old(open) ==> pcm[..] == old(pcm[..])
      ensures old(open) ==> samples == decodedCount && pcm[..|decodedPcm|] == decodedPcm
      ensures old(open) ==> Unread() == old(Unread())[Min(wanted, old(numUnread))..]
      ensures samples <= 0 ==> left[..] == old(left[..]) && right[..] == old(right[..])
      ensures samples > 0 ==>
        && left[..samples] == Channel(decodedPcm, 2, 0, samples)
        && right[..samples] == Channel(decodedPcm, 2, 1, samples)
        && left[samples..] == old(left[samples..]) && right[samples..] == old(right[samples..])
    {
      if !open {
        return 0;
      }
      CodecStep(wanted, decodedPcm);
      samples := decodedCount;
      if samples > 0 {
        DeinterleaveStereo(left, right, samples, pcm[..|decodedPcm|]);
      }
    }

    /** The stereo routine's loop: for each of the first `n` frames, the even
        element goes to `left` and the odd one to `right`. */
    static method DeinterleaveStereo(left: array<T>, right: array<T>, n: nat, src: seq<T>)
      requires left != right && n <= left.Length && n <= right.Length && 2 * n <= |src|
      modifies left, right
      ensures forall i :: 0 <= i < n ==> left[i] == src[2 * i] && right[i] == src[2 * i + 1]
      ensures left[..n] == Channel(src, 2, 0, n) && right[..n] == Channel(src, 2, 1, n)
      ensures left[n..] == old(left[n..]) && right[n..] == old(right[n..])
    {
      for i := 0 to n
        invariant forall j :: 0 <= j < i ==> left[j] == src[2 * j] && right[j] == src[2 * j + 1]
        invariant left[i..] == old(left[i..]) && right[i..] == old(right[i..])
      {
        left[i] := src[i * 2 + 0];
        right[i] := src[i * 2 + 1];
      }
      forall j | 0 <= j < n
        ensures left[j] == Channel(src, 2, 0, n)[j] && right[j] == Channel(src, 2, 1, n)[j]
      {
        assert Slot(j, 2, 0) == 2 * j && Slot(j, 2, 1) == 2 * j + 1;
      }
    }

    /** ogg_opus_decode_float_deinterleaved: the general form for `channels`
        channels. Sample `i` of output `c` is copied from
        `pcm[i * channels + c]`. The codec is asked for at most
        `ReadRequest(channels)` floats (see README, Findings). */
    method DecodeFloatDeinterleaved(channels: nat, outputs: seq<array<T>>,
                                    wanted: nat, decodedCount: int, decodedPcm: seq<T>)
      returns (samples: int)
      requires Valid()
      requires 1 <= channels <= MaxChannels && |outputs| == channels
      requires forall c, d :: 0 <= c < d < channels ==> outputs[c] != outputs[d]
      requires forall c :: 0 <= c < channels ==> outputs[c] != pcm && outputs[c] as object != queue
      requires forall c :: 0 <= c < channels ==> MaxFrameSamples <= outputs[c].Length
      // what op_read_float promises for a buffer of ReadRequest(channels) floats
      requires decodedCount * channels <= |decodedPcm| <= ReadRequest(channels)
      modifies this`cursor, this`numUnread, pcm, outputs
      ensures Valid() && open == old(open)
      ensures !old(open) ==> samples == 0 && cursor == old(cursor) && numUnread == old(numUnread)
      ensures !old(open) ==> pcm[..] == old(pcm[..])
      ensures old(open) ==> samples == decodedCount && pcm[..|decodedPcm|] == decodedPcm
      ensures old(open) ==> Unread() == old(Unread())[Min(wanted, old(numUnread))..]
      ensures samples <= MaxFrameSamples
      ensures forall c :: 0 <= c < channels && samples > 0 ==>
        samples <= outputs[c].Length && outputs[c][..samples] == Channel(decodedPcm, channels, c, samples)
      ensures forall c, i :: 0 <= c < channels && 0 <= i < outputs[c].Length && samples <= i ==>
        outputs[c][i] == old(outputs[c][i])
    {
      if !open {
        return 0;
      }
      CodecStep(wanted, decodedPcm);
      samples := decodedCount;
      if samples <= 0 {
        return;
      }
      MulCancel(samples, MaxFrameSamples, channels);
      DeinterleaveChannels(outputs, channels, samples, pcm[..|decodedPcm|]);
    }

    /** The general routine's copy, stated per channel: output `c` begins with
        channel `c` of the first `n` frames of `src`, and nothing past `n`
        changes. */
    static method DeinterleaveChannels(outputs: seq<array<T>>, channels: nat, n: nat, src: seq<T>)
      requires |outputs| == channels
      requires forall c, d :: 0 <= c < d < channels ==> outputs[c] != outputs[d]
      requires forall c :: 0 <= c < channels ==> n <= outputs[c].Length
      requires n * channels <= |src|
      modifies outputs
      ensures forall c :: 0 <= c < channels ==> outputs[c][..n] == Channel(src, channels, c, n)
      ensures forall c, i :: 0 <= c < channels && n <= i < outputs[c].Length ==> outputs[c][i] == old(outputs[c][i])
    {
      SlotsWithinSize(n, channels, |src|);
      DeinterleaveFrames(outputs, channels, n, src);
      forall c | 0 <= c < channels
        ensures outputs[c][..n] == Channel(src, channels, c, n)
      {
        forall i | 0 <= i < n
          ensures outputs[c][i] == Channel(src, channels, c, n)[i]
        {
        }
      }
    }

    /** The outer loop of the general routine: for each of the first `n`
        frames of the interleaved buffer `src`, every channel's sample is
        copied to its own output. */
    static method DeinterleaveFrames(outputs: seq<array<T>>, channels: nat, n: nat, src: seq<T>)
      requires |outputs| == channels
      requires forall c, d :: 0 <= c < d < channels ==> outputs[c] != outputs[d]
      requires forall c :: 0 <= c < channels ==> n <= outputs[c].Length
      requires SlotsWithin(n, channels, |src|)
      modifies outputs
      ensures forall c, i :: 0 <= c < channels && 0 <= i < n ==> outputs[c][i] == src[Slot(i, channels, c)]
      ensures forall c, i :: 0 <= c < channels && n <= i < outputs[c].Length ==> outputs[c][i] == old(outputs[c][i])
    {
      for i := 0 to n
        invariant forall c, j :: 0 <= c < channels && 0 <= j < i ==>
          outputs[c][j] == src[Slot(j, channels, c)]
        invariant forall c, j :: 0 <= c < channels && i <= j < outputs[c].Length ==>
          outputs[c][j] == old(outputs[c][j])
      {
        DeinterleaveSample(outputs, channels, i, src);
      }
    }

    /** The inner loop of the general routine: sample `i` of every channel is
        copied out of the interleaved buffer `src`. */
    static method DeinterleaveSample(outputs: seq<array<T>>, channels: nat, i: nat, src: seq<T>)
      requires |outputs| == channels
      requires forall c, d :: 0 <= c < d < channels ==> outputs[c] != outputs[d]
      requires forall c :: 0 <= c < channels ==> i < outputs[c].Length
      requires SlotsWithin(i + 1, channels, |src|)
      modifies outputs
      ensures forall c :: 0 <= c < channels ==> outputs[c][i] == src[Slot(i, channels, c)]
      ensures forall c, j :: 0 <= c < channels && 0 <= j < outputs[c].Length && j != i ==>
        outputs[c][j] == old(outputs[c][j])
    {
      for c := 0 to channels
        invariant forall d :: 0 <= d < c ==> outputs[d][i] == src[Slot(i, channels, d)]
        invariant forall d, j :: 0 <= d < channels && 0 <= j < outputs[d].Length && (j != i || c <= d) ==>
          outputs[d][j] == old(outputs[d][j])
      {
        outputs[c][i] := src[Slot(i, channels, c)];
      }
    }

    /** memcpy(dst + at, src, size) between two distinct byte buffers. */
    static method Memcpy(dst: array<Byte>, at: nat, src: array<Byte>, size: nat)
      requires dst != src && at + size <= dst.Length && size <= src.Length
      modifies dst
      ensures dst[..at] == old(dst[..at])
      ensures dst[at..at + size] == src[..size]
      ensures dst[at + size..] == old(dst[at + size..])
    {
      forall i | 0 <= i < size {
        dst[at + i] := src[i];
      }
    }

    /** The part of op_read_float* that touches this model's state: the codec
        reads through cb_read, then writes its interleaved output into `pcm`. */
    method CodecStep(wanted: nat, decodedPcm: seq<T>)
      requires Valid() && open && |decodedPcm| <= PcmCapacity
      modifies this`cursor, this`numUnread, pcm
      ensures Valid() && open
      ensures pcm[..|decodedPcm|] == decodedPcm
      ensures Unread() == old(Unread())[Min(wanted, old(numUnread))..]
    {
      var scratch := new Byte[wanted];
      var got := ReadCallback(scratch, wanted);
      forall i | 0 <= i < |decodedPcm| {
        pcm[i] := decodedPcm[i];
      }
    }
  }
  /** As written, a decoder fresh from ogg_opus_decoder_create accepts a
      first chunk, but the bytes land in the storage `start` points into; the
      decoder's own `_data` does not receive a byte of it. */
  method AsWrittenEnqueueMissesData<T(0)>(src: array<Byte>, size: nat, openStream: seq<Byte> -> int)
    returns (ok: int, queued: seq<Byte>, dataBefore: seq<Byte>, dataAfter: seq<Byte>)
    requires size <= src.Length && size <= BufferCapacity
    ensures ok == 1
    ensures |queued| == BufferCapacity && queued[..size] == src[..size]
    ensures dataAfter == dataBefore
  {
    var d := new OggOpusDecoder<T>.CreateAsWritten();
    dataBefore := d.data[..];
    ok := d.Enqueue(src, size, openStream);
    queued := d.queue[..];
    dataAfter := d.data[..];
  }

  /** With `start` and `cursor` pointing into the decoder's own `_data`, the
      first accepted chunk is stored at the start of `_data` and, until the
      stream opens, is exactly what the read callback will hand out. */
  method EnqueueAfterCreateFillsData<T(0)>(src: array<Byte>, size: nat, openStream: seq<Byte> -> int)
    returns (ok: int, dataAfter: seq<Byte>, unread: seq<Byte>, isOpen: bool)
    requires size <= src.Length && size <= BufferCapacity
    ensures ok == 1
    ensures |dataAfter| == BufferCapacity && dataAfter[..size] == src[..size]
    ensures isOpen == (openStream(src[..size]) == 0)
    ensures !isOpen ==> unread == src[..size]
    ensures isOpen ==> unread == []
  {
    var d := new OggOpusDecoder<T>.Create();
    ghost var before := d.Unread();
    ok := d.Enqueue(src, size, openStream);
    assert before + src[..size] == src[..size];
    dataAfter := d.data[..];
    unread := d.queue[d.cursor..d.cursor + d.numUnread];
    isOpen := d.open;
  }
}
