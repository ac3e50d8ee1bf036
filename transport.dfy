/**
 * The transport behind `URL`: the web requests, response streams, memory stream and file the
 * C# code uses, replaced by an oracle that answers each request from a script of outcomes and
 * records every request, sleep and read in a log.
 */
module Transport {
  import opened Wrappers

  newtype byte = b: int | 0 <= b < 0x100

  /** What a response tells the caller before its body is read. */
  datatype ResponseHead = ResponseHead(resolved: string, contentLength: int)

  /**
   * One piece of a response body as the server delivers it. `Data([])` is a read that returns
   * no bytes, which the reader takes for the end of the stream; `Fault` is a read that throws.
   */
  datatype ReadStep = Data(bytes: seq<byte>) | Fault

  /** The answer to one request: `GetResponse` throws, or a response with its body. */
  datatype Outcome = NoResponse | Response(head: ResponseHead, body: seq<ReadStep>)

  /** What the transport observed, in order. */
  datatype Event = Requested(address: string) | Slept | ReadBytes(count: nat) | ReadFailed

  /** The outcome of request `k`; requests past the end of the script get no response. */
  function OutcomeAt(outs: seq<Outcome>, k: nat): Outcome {
    if k < |outs| then outs[k] else NoResponse
  }

  /** The script once `n` requests have been answered. */
  function Drop(outs: seq<Outcome>, n: nat): (r: seq<Outcome>)
    ensures forall k: nat :: OutcomeAt(r, k) == OutcomeAt(outs, n + k)
  {
    if n <= |outs| then outs[n..] else []
  }

  /** Answering one more request after `n` is dropping `n + 1`. */
  lemma DropOneMore(outs: seq<Outcome>, n: nat)
    ensures Drop(Drop(outs, n), 1) == Drop(outs, n + 1)
  {
    if n < |outs| {
      assert outs[n..][1..] == outs[n + 1..];
    }
  }

  /** Appending in two steps or in one gives the same sequence (logs, sink contents). */
  lemma AppendAssociative<T>(a: seq<T>, b: seq<T>, c: seq<T>)
    ensures (a + b) + c == a + (b + c)
  {
  }

  /** The result of one `Stream.Read` and the body left unread after it. */
  datatype ReadResult = ReadResult(got: Result<seq<byte>, Exception>, rest: seq<ReadStep>)

  /**
   * `Stream.Read` with a buffer of `max` bytes: at most `max` bytes of the next piece, the
   * remainder staying in the stream; zero bytes at the end of the body; an `IOException` at a
   * fault, which stays put.
   */
  function Step(steps: seq<ReadStep>, max: nat): (r: ReadResult)
    requires 0 < max
    ensures r.got.Success? ==> |r.got.value| <= max
    ensures r.got.Success? && r.got.value == [] <==> steps == [] || steps[0] == Data([])
    ensures r.got.Failure? <==> steps != [] && steps[0].Fault?
    ensures r.got.Failure? ==> r.got.error == IOException && r.rest == steps
  {
    if steps == [] then ReadResult(Success([]), [])
    else match steps[0]
      case Fault => ReadResult(Failure(IOException), steps)
      case Data(b) =>
        if |b| <= max then ReadResult(Success(b), steps[1..])
        else ReadResult(Success(b[..max]), [Data(b[max..])] + steps[1..])
  }

  /** The log entry of a read. */
  function ReadEvent(got: Result<seq<byte>, Exception>): Event {
    if got.Success? then ReadBytes(|got.value|) else ReadFailed
  }

  /**
   * The network as the `URL` class sees it: the outcomes still to be handed out, the unread body
   * of the response stream last opened, and the log.
   */
  class Network {
    var outcomes: seq<Outcome>
    var body: seq<ReadStep>
    var log: seq<Event>

    constructor (outcomes: seq<Outcome>)
      ensures this.outcomes == outcomes && body == [] && log == []
    {
      this.outcomes := outcomes;
      body := [];
      log := [];
    }

    /** Creating a web request for `address` and getting its response: the next scripted outcome. */
    method GetResponse(address: string) returns (o: Outcome)
      modifies this
      ensures o == OutcomeAt(old(outcomes), 0)
      ensures outcomes == Drop(old(outcomes), 1)
      ensures body == old(body)
      ensures log == old(log) + [Requested(address)]
    {
      o := OutcomeAt(outcomes, 0);
      outcomes := Drop(outcomes, 1);
      log := log + [Requested(address)];
    }

    /** Opening the response stream: reads now come from this response's body. */
    method OpenStream(o: Outcome)
      requires o.Response?
      modifies this
      ensures body == o.body
      ensures outcomes == old(outcomes) && log == old(log)
    {
      body := o.body;
    }

    /** The two-second `Thread.Sleep` between attempts; only the fact that it happened is kept. */
    method Sleep()
      modifies this
      ensures log == old(log) + [Slept]
      ensures outcomes == old(outcomes) && body == old(body)
    {
      log := log + [Slept];
    }

    /** One `Stream.Read` of at most `max` bytes from the open response stream. */
    method Read(max: nat) returns (got: Result<seq<byte>, Exception>)
      requires 0 < max
      modifies this
      ensures got == Step(old(body), max).got
      ensures body == Step(old(body), max).rest
      ensures log == old(log) + [ReadEvent(got)]
      ensures outcomes == old(outcomes)
    {
      var r := Step(body, max);
      got := r.got;
      body := r.rest;
      log := log + [ReadEvent(got)];
    }
  }

  /** `System.IO.MemoryStream`: the bytes written so far. */
  class MemoryStream {
    var data: seq<byte>

    constructor ()
      ensures data == []
    {
      data := [];
    }

    method Write(chunk: seq<byte>)
      modifies this
      ensures data == old(data) + chunk
    {
      data := data + chunk;
    }
  }

  /** The local file system, path by path. */
  class Disk {
    var files: map<string, seq<byte>>

    constructor (files: map<string, seq<byte>>)
      ensures this.files == files
    {
      this.files := files;
    }

    /** Opening a `FileStream` at `path` in `FileMode.Create`: the file exists and is empty. */
    method Create(path: string)
      modifies this
      ensures files == old(files)[path := []]
    {
      files := files[path := []];
    }

    /** Writing a chunk to the file opened at `path`. */
    method Append(path: string, chunk: seq<byte>)
      requires path in files
      modifies this
      ensures files == old(files)[path := old(files)[path] + chunk]
    {
      files := files[path := files[path] + chunk];
    }
  }
}
