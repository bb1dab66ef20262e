/** The Web Worker wrapper (OggOpusDecoderWebWorker.js): a proxy on the main
    thread that tags every request with a fresh id and keeps a table of pending
    requests, and the worker side that dispatches each request to its own
    decoder instance and answers with the request's id.

    The message transport is not modelled: the proxy's `outbox` is the list of
    messages it has posted, and a reply is handed to the proxy by calling its
    message handler. A pending resolver is represented by the command it was
    registered for. */
module OggOpusWorker {
  import opened Common
  import opened OggOpusHost

  /** `Number.MIN_SAFE_INTEGER`, the first id a proxy uses. */
  const MinSafeInteger: int := -9007199254740991

  datatype Command = Ready | Free | Reset | Decode | Unknown(name: string)

  /** `{ id, command, oggOpusData }` as posted to the worker. */
  datatype Request = Request(id: int, command: Command, oggOpusData: seq<Byte>)

  /** `{ id }`, or `{ id, channelData, samplesDecoded, sampleRate }` for a
      decode (the sample rate is left out). */
  datatype Reply<T> = Reply(id: int, audio: Option<DecodedAudio<T>>)

  // ---------------------------------------------------------------------
  // The correlation table as a value

  /** `_id` and `_enqueuedOperations`. */
  datatype Table = Table(nextId: int, pending: map<int, Command>)

  /** Every pending id was handed out before the current `_id`. */
  predicate TableValid(t: Table)
  {
    MinSafeInteger <= t.nextId && forall id :: id in t.pending ==> MinSafeInteger <= id < t.nextId
  }

  function InitialTable(): (t: Table)
    ensures TableValid(t) && t.nextId == MinSafeInteger && t.pending == map[]
  {
    Table(MinSafeInteger, map[])
  }

  /** `_postToDecoder`: the request goes out with the current id, the resolver
      is registered under that id, and the counter moves on by one. */
  function Post(t: Table, command: Command): Table
  {
    Table(t.nextId + 1, t.pending[t.nextId := command])
  }

  /** The proxy's `onmessage`: the resolver registered under `id` is called
      and removed. `None` when no request with that id is pending (calling
      `undefined` throws in the handler). */
  function Deliver(t: Table, id: int): Option<(Command, Table)>
  {
    if id in t.pending then Some((t.pending[id], Table(t.nextId, t.pending - {id}))) else None
  }

  /** A posted id is never already pending, and posting keeps the table valid
      and changes no other entry. */
  lemma PostFresh(t: Table, command: Command)
    requires TableValid(t)
    ensures t.nextId !in t.pending
    ensures TableValid(Post(t, command))
    ensures Post(t, command).pending.Keys == t.pending.Keys + {t.nextId}
    ensures forall id :: id in t.pending ==> Post(t, command).pending[id] == t.pending[id]
  {
  }

  /** A reply resolves exactly the entry for its id and leaves every other
      entry as it was; a reply for an id that is not pending is refused. */
  lemma DeliverExact(t: Table, id: int)
    requires TableValid(t)
    ensures Deliver(t, id).Some? <==> id in t.pending
    ensures Deliver(t, id).Some? ==>
      && Deliver(t, id).value.0 == t.pending[id]
      && TableValid(Deliver(t, id).value.1)
      && Deliver(t, id).value.1.pending.Keys == t.pending.Keys - {id}
      && (forall other :: other in t.pending && other != id ==> Deliver(t, id).value.1.pending[other] == t.pending[other])
  {
  }

  /** Answering a request removes what posting it added: the table returns to
      its previous contents, with the counter advanced. */
  lemma PostThenDeliver(t: Table, command: Command)
    requires TableValid(t)
    ensures Deliver(Post(t, command), t.nextId) == Some((command, Table(t.nextId + 1, t.pending)))
  {
    assert t.nextId !in t.pending;
    assert t.pending[t.nextId := command] - {t.nextId} == t.pending;
  }

  /** Each request can be resolved only once: a second reply with the same id
      is refused. */
  lemma ResolvedOnce(t: Table, id: int)
    requires Deliver(t, id).Some?
    ensures Deliver(Deliver(t, id).value.1, id).None?
  {
  }

  /** What happens to the table: a request is posted, or a reply arrives. */
  datatype Event = Posted(command: Command) | Replied(id: int)

  /** The table after a sequence of events; a refused reply changes nothing. */
  function Run(t: Table, events: seq<Event>): Table
    decreases |events|
  {
    if events == [] then t
    else
      var next := match events[0]
        case Posted(c) => Post(t, c)
        case Replied(id) => if Deliver(t, id).Some? then Deliver(t, id).value.1 else t;
      Run(next, events[1..])
  }

  function PostCount(events: seq<Event>): nat
    decreases |events|
  {
    if events == [] then 0 else (if events[0].Posted? then 1 else 0) + PostCount(events[1..])
  }

  /** Along any interleaving of requests and replies the table stays valid:
      the counter has advanced by the number of requests, every pending id is
      below it, and so no id is ever registered twice. */
  lemma {:induction false} RunKeepsValid(t: Table, events: seq<Event>)
    requires TableValid(t)
    ensures TableValid(Run(t, events))
    ensures Run(t, events).nextId == t.nextId + PostCount(events)
    decreases |events|
  {
    if events != [] {
      var next := match events[0]
        case Posted(c) => Post(t, c)
        case Replied(id) => if Deliver(t, id).Some? then Deliver(t, id).value.1 else t;
      if events[0].Posted? {
        PostFresh(t, events[0].command);
      } else {
        DeliverExact(t, events[0].id);
      }
      RunKeepsValid(next, events[1..]);
    }
  }

  /** Posting several requests in a row. */
  function PostAll(t: Table, commands: seq<Command>): Table
    decreases |commands|
  {
    if commands == [] then t else PostAll(Post(t, commands[0]), commands[1..])
  }

  /** Ids are never reused: `n` requests in a row get the `n` ids following
      the counter, none of which was pending, each registered with its own
      command, and every earlier entry is left as it was. */
  lemma {:induction false} PostAllRegisters(t: Table, commands: seq<Command>)
    requires TableValid(t)
    ensures var r := PostAll(t, commands);
      && TableValid(r)
      && r.nextId == t.nextId + |commands|
      && (forall id :: t.nextId <= id < r.nextId ==>
            id !in t.pending && id in r.pending && r.pending[id] == commands[id - t.nextId])
      && (forall id :: id in t.pending ==> id in r.pending && r.pending[id] == t.pending[id])
    decreases |commands|
  {
    if commands != [] {
      var next := Post(t, commands[0]);
      PostFresh(t, commands[0]);
      PostAllRegisters(next, commands[1..]);
      var r := PostAll(t, commands);
      assert r == PostAll(next, commands[1..]);
      forall id | t.nextId <= id < r.nextId
        ensures id !in t.pending && id in r.pending && r.pending[id] == commands[id - t.nextId]
      {
        if id == t.nextId {
          assert id in next.pending && next.pending[id] == commands[0];
        } else {
          assert commands[1..][id - next.nextId] == commands[id - t.nextId];
        }
      }
    }
  }

  // ---------------------------------------------------------------------
  // The proxy

  /** What a settled request yields to its caller: `decode` rebuilds the
      decoded audio from the reply; the other commands yield nothing. */
  datatype Settled<T> = Settled(command: Command, audio: Option<DecodedAudio<T>>)

  class OggOpusDecoderWebWorker<T> {
    /** `_id` */
    var nextId: int
    /** `_enqueuedOperations` */
    var pending: map<int, Command>
    /** set once the worker has been terminated */
    var terminated: bool
    /** messages posted to the worker, in order */
    var outbox: seq<Request>

    function Snapshot(): Table
      reads this
    {
      Table(nextId, pending)
    }

    ghost predicate Valid()
      reads this
    {
      TableValid(Snapshot())
    }

    /** The constructor's bookkeeping: the first id is
        `Number.MIN_SAFE_INTEGER` and nothing is pending. */
    constructor ()
      ensures Valid() && Snapshot() == InitialTable() && !terminated && outbox == []
    {
      nextId := MinSafeInteger;
      pending := map[];
      terminated := false;
      outbox := [];
    }

    /** `_postToDecoder(command, oggOpusData)`. */
    method PostToDecoder(command: Command, oggOpusData: seq<Byte>) returns (id: int)
      requires Valid()
      modifies this`nextId, this`pending, this`outbox
      ensures Valid()
      ensures id == old(nextId) && id !in old(pending)
      ensures outbox == old(outbox) + [Request(id, command, oggOpusData)]
      ensures Snapshot() == Post(old(Snapshot()), command)
    {
      PostFresh(Snapshot(), command);
      outbox := outbox + [Request(nextId, command, oggOpusData)];
      pending := pending[nextId := command];
      id := nextId;
      nextId := nextId + 1;
    }

    /** `ready`, `free`, `reset` and `decode` each post their command; `decode`
        sends the bytes along. */
    method Ready() returns (id: int)
      requires Valid()
      modifies this`nextId, this`pending, this`outbox
      ensures Valid() && id == old(nextId) && outbox == old(outbox) + [Request(id, Command.Ready, [])]
      ensures Snapshot() == Post(old(Snapshot()), Command.Ready)
    {
      id := PostToDecoder(Command.Ready, []);
    }

    method Free() returns (id: int)
      requires Valid()
      modifies this`nextId, this`pending, this`outbox
      ensures Valid() && id == old(nextId) && outbox == old(outbox) + [Request(id, Command.Free, [])]
      ensures Snapshot() == Post(old(Snapshot()), Command.Free)
    {
      id := PostToDecoder(Command.Free, []);
    }

    method Reset() returns (id: int)
      requires Valid()
      modifies this`nextId, this`pending, this`outbox
      ensures Valid() && id == old(nextId) && outbox == old(outbox) + [Request(id, Command.Reset, [])]
      ensures Snapshot() == Post(old(Snapshot()), Command.Reset)
    {
      id := PostToDecoder(Command.Reset, []);
    }

    method Decode(data: seq<Byte>) returns (id: int)
      requires Valid()
      modifies this`nextId, this`pending, this`outbox
      ensures Valid() && id == old(nextId) && outbox == old(outbox) + [Request(id, Command.Decode, data)]
      ensures Snapshot() == Post(old(Snapshot()), Command.Decode)
    {
      id := PostToDecoder(Command.Decode, data);
    }

    /** `onmessage`: the entry for the reply's id is resolved and removed. A
        settled `free` terminates the worker. A reply whose id is not pending
        is refused and changes nothing. */
    method OnMessage(reply: Reply<T>) returns (settled: Option<Settled<T>>)
      requires Valid()
      modifies this`pending, this`terminated
      ensures Valid()
      ensures settled.Some? <==> reply.id in old(pending)
      ensures settled.None? ==> pending == old(pending) && terminated == old(terminated)
      ensures settled.Some? ==>
        && Snapshot() == Deliver(old(Snapshot()), reply.id).value.1
        && settled.value.command == old(pending)[reply.id]
        && settled.value.audio == (if settled.value.command == Command.Decode then reply.audio else None)
        && terminated == (old(terminated) || settled.value.command == Command.Free)
    {
      DeliverExact(Snapshot(), reply.id);
      if reply.id !in pending {
        return None;
      }
      var command := pending[reply.id];
      pending := pending - {reply.id};
      if command == Command.Free {
        terminated := true;
      }
      var audio := if command == Command.Decode then reply.audio else None;
      settled := Some(Settled(command, audio));
    }
  }

  // ---------------------------------------------------------------------
  // The worker side

  class WorkerScope<T(0)> {
    /** the worker's own decoder instance */
    var decoder: OggOpusDecoder<T>

    ghost predicate Valid()
      reads this, decoder
    {
      decoder.Valid() && !decoder.freed
    }

    constructor ()
      ensures Valid() && decoder.stream == []
    {
      decoder := new OggOpusDecoder<T>();
    }

    /** The worker's `onmessage`: every known command is answered with the
        request's own id, a decode reply carrying the decoded audio. An
        unknown command only logs, and a decode that throws escapes the
        handler: neither is answered. After `free` the decoder is released. */
    method OnMessage(request: Request, codec: Codec<T>, zero: T) returns (reply: Option<Reply<T>>)
      requires Valid() && WellFormedCodec(codec)
      modifies decoder, decoder.input, decoder.leftArr, decoder.rightArr
      ensures decoder == old(decoder) && decoder.Valid()
      ensures reply.Some? ==> reply.value.id == request.id
      ensures request.command.Unknown? ==> reply.None? && decoder.stream == old(decoder.stream)
      ensures request.command == Command.Ready ==>
        reply == Some(Reply(request.id, None)) && Valid() && decoder.stream == old(decoder.stream)
      ensures request.command == Command.Free ==> reply == Some(Reply(request.id, None)) && decoder.freed
      ensures request.command == Command.Reset ==> reply == Some(Reply(request.id, None)) && Valid() && decoder.stream == []
      ensures request.command == Command.Decode ==>
        var out := DecodeSpec(Bytes(request.oggOpusData), codec, old(decoder.stream));
        && Valid()
        && decoder.stream == out.stream
        && reply == (if out.result.Success? then Some(Reply(request.id, Some(out.result.value))) else None)
    {
      match request.command
      case Ready =>
        reply := Some(Reply(request.id, None));
      case Free =>
        decoder.Free();
        reply := Some(Reply(request.id, None));
      case Reset =>
        decoder.Reset();
        reply := Some(Reply(request.id, None));
      case Decode =>
        var result := decoder.Decode(Bytes(request.oggOpusData), codec, zero);
        reply := if result.Success? then Some(Reply(request.id, Some(result.value))) else None;
      case Unknown(_) =>
        reply := None;
    }
  }

  /** A decode request travels from proxy to worker and back: on success the
      caller gets the audio of the reference decode and the pending table is
      back to what it was before the request; when the decode fails in the
      worker no reply comes, and the request stays pending for good. */
  method DecodeRoundTrip<T(0)>(proxy: OggOpusDecoderWebWorker<T>, worker: WorkerScope<T>,
                               data: seq<Byte>, codec: Codec<T>, zero: T)
    returns (settled: Option<Settled<T>>)
    requires proxy.Valid() && worker.Valid() && WellFormedCodec(codec)
    modifies proxy, worker.decoder, worker.decoder.input, worker.decoder.leftArr, worker.decoder.rightArr
    ensures proxy.Valid()
    ensures var out := DecodeSpec(Bytes(data), codec, old(worker.decoder.stream));
      out.result.Success? ==>
        settled == Some(Settled(Command.Decode, Some(out.result.value))) && proxy.pending == old(proxy.pending)
    ensures var out := DecodeSpec(Bytes(data), codec, old(worker.decoder.stream));
      out.result.Failure? ==>
        settled.None? && proxy.pending == old(proxy.pending)[old(proxy.nextId) := Command.Decode]
  {
    ghost var before := proxy.Snapshot();
    var id := proxy.Decode(data);
    assert proxy.outbox[|proxy.outbox| - 1] == Request(id, Command.Decode, data);
    var reply := worker.OnMessage(proxy.outbox[|proxy.outbox| - 1], codec, zero);
    assert proxy.Snapshot() == Post(before, Command.Decode);
    if reply.None? {
      return None;
    }
    PostThenDeliver(before, Command.Decode);
    assert reply.value.id == id;
    assert id in proxy.pending;
    settled := proxy.OnMessage(reply.value);
  }
}
