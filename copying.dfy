/**
 * The chunked copy loop shared in shape by `LoadToMemoryStream` and `GetFile`: read up to 8192
 * bytes, write what came, stop at the first read that returns nothing. `Drain` says what the
 * sink ends up holding, independently of how the reads split the body; `ReadLog` says which
 * reads the loop makes.
 */
module Copying {
  import opened Wrappers
  import opened Transport

  /** `new byte[8192]`: the most one read asks for. */
  const BufferSize: nat := 8192

  /** The bytes a body delivers before its stream stops, and whether it stopped at a fault. */
  datatype Drained = Drained(bytes: seq<byte>, faulted: bool)

  function Drain(steps: seq<ReadStep>): Drained {
    if steps == [] then Drained([], false)
    else match steps[0]
      case Fault => Drained([], true)
      case Data(b) =>
        if b == [] then Drained([], false)
        else
          var d := Drain(steps[1..]);
          Drained(b + d.bytes, d.faulted)
  }

  /** What is left of a body once the stream has stopped: a fault stays, an empty read is used up. */
  function AfterDrain(steps: seq<ReadStep>): (r: seq<ReadStep>)
    ensures |r| <= |steps| && r == steps[|steps| - |r|..]
    ensures Drain(steps).faulted ==> r != [] && r[0].Fault?
  {
    if steps == [] then []
    else match steps[0]
      case Fault => steps
      case Data(b) => if b == [] then steps[1..] else AfterDrain(steps[1..])
  }

  /** Unread bytes plus pieces: every read that returns something makes it smaller. */
  function Size(steps: seq<ReadStep>): nat {
    if steps == [] then 0
    else (match steps[0] case Data(b) => |b| + 1 case Fault => 1) + Size(steps[1..])
  }

  /** A read that returns bytes leaves a smaller body behind. */
  lemma StepShrinks(steps: seq<ReadStep>, max: nat)
    requires 0 < max
    requires Step(steps, max).got.Success? && Step(steps, max).got.value != []
    ensures Size(Step(steps, max).rest) < Size(steps)
  {
    var b := steps[0].bytes;
    if max < |b| {
      var rest := Step(steps, max).rest;
      assert rest[1..] == steps[1..];
    }
  }

  /** The reads the copy loop makes on `steps` with a buffer of `max` bytes, ending with the one that stops it. */
  function ReadLog(steps: seq<ReadStep>, max: nat): seq<Event>
    requires 0 < max
    decreases Size(steps)
  {
    var r := Step(steps, max);
    if r.got.Failure? || r.got.value == [] then [ReadEvent(r.got)]
    else
      StepShrinks(steps, max);
      [ReadEvent(r.got)] + ReadLog(r.rest, max)
  }

  /** One read moves its bytes from the body to the sink without changing where the stream stops. */
  lemma StepKeepsDrain(steps: seq<ReadStep>, max: nat)
    requires 0 < max
    ensures var r := Step(steps, max);
      r.got.Success? && r.got.value != [] ==>
        Drain(steps) == Drained(r.got.value + Drain(r.rest).bytes, Drain(r.rest).faulted)
        && AfterDrain(r.rest) == AfterDrain(steps)
    ensures var r := Step(steps, max);
      r.got == Success([]) ==> Drain(steps) == Drained([], false) && AfterDrain(steps) == r.rest
    ensures var r := Step(steps, max);
      r.got.Failure? ==> Drain(steps) == Drained([], true) && AfterDrain(steps) == steps
  {
    if steps != [] && steps[0].Data? && max < |steps[0].bytes| {
      var b := steps[0].bytes;
      var rest := Step(steps, max).rest;
      assert rest[1..] == steps[1..];
      assert b[..max] + b[max..] == b;
      assert Drain(rest).bytes == b[max..] + Drain(steps[1..]).bytes;
      assert b[..max] + (b[max..] + Drain(steps[1..]).bytes) == b + Drain(steps[1..]).bytes;
    }
  }

  /**
   * Part way through the copy loop on `start`, which began with the log at `log0`: the sink has
   * received `got`, `body` is still unread and the log is `log`. What is left to copy, where the
   * stream will stop and the reads still to come all agree with a loop that began on `start`.
   */
  predicate CopyInProgress(start: seq<ReadStep>, got: seq<byte>, body: seq<ReadStep>, log0: seq<Event>, log: seq<Event>) {
    && got + Drain(body).bytes == Drain(start).bytes
    && Drain(body).faulted == Drain(start).faulted
    && AfterDrain(body) == AfterDrain(start)
    && log + ReadLog(body, BufferSize) == log0 + ReadLog(start, BufferSize)
  }

  /** The copy loop on `start` has stopped at an empty read, having copied all the body delivers. */
  predicate CopyFinished(start: seq<ReadStep>, got: seq<byte>, body: seq<ReadStep>, log0: seq<Event>, log: seq<Event>) {
    && got == Drain(start).bytes && !Drain(start).faulted
    && body == AfterDrain(start)
    && log == log0 + ReadLog(start, BufferSize)
  }

  /**
   * One pass of the copy loop: a read that throws ends it with everything before the fault
   * copied; an empty read ends it with the whole body copied; a read that returns bytes hands
   * them to the sink and leaves a smaller body to copy.
   */
  lemma CopyStep(start: seq<ReadStep>, got: seq<byte>, body: seq<ReadStep>, log0: seq<Event>, log: seq<Event>)
    requires CopyInProgress(start, got, body, log0, log)
    ensures var r := Step(body, BufferSize);
      r.got.Failure? ==>
        && got == Drain(start).bytes && Drain(start).faulted
        && r.rest == AfterDrain(start)
        && log + [ReadFailed] == log0 + ReadLog(start, BufferSize)
    ensures var r := Step(body, BufferSize);
      r.got == Success([]) ==> CopyFinished(start, got, r.rest, log0, log + [ReadBytes(0)])
    ensures var r := Step(body, BufferSize);
      r.got.Success? && r.got.value != [] ==>
        && CopyInProgress(start, got + r.got.value, r.rest, log0, log + [ReadBytes(|r.got.value|)])
        && Size(r.rest) < Size(body)
  {
    var r := Step(body, BufferSize);
    StepKeepsDrain(body, BufferSize);
    if r.got.Failure? {
      assert ReadLog(body, BufferSize) == [ReadFailed];
      assert got + [] == got;
    } else if r.got.value == [] {
      assert ReadLog(body, BufferSize) == [ReadBytes(0)];
      assert got + [] == got;
    } else {
      var chunk := r.got.value;
      StepShrinks(body, BufferSize);
      assert ReadLog(body, BufferSize) == [ReadBytes(|chunk|)] + ReadLog(r.rest, BufferSize);
      AppendAssociative(log, [ReadBytes(|chunk|)], ReadLog(r.rest, BufferSize));
      AppendAssociative(got, chunk, Drain(r.rest).bytes);
    }
  }

  /** No read asks for, or gets, more than the buffer holds. */
  lemma {:induction false} ReadsBounded(steps: seq<ReadStep>, max: nat)
    requires 0 < max
    decreases Size(steps)
    ensures forall k: nat :: k < |ReadLog(steps, max)| && ReadLog(steps, max)[k].ReadBytes? ==>
      ReadLog(steps, max)[k].count <= max
  {
    var r := Step(steps, max);
    if r.got.Success? && r.got.value != [] {
      StepShrinks(steps, max);
      ReadsBounded(r.rest, max);
      assert ReadLog(steps, max) == [ReadEvent(r.got)] + ReadLog(r.rest, max);
    }
  }

  /** The total number of bytes the logged reads returned. */
  function BytesRead(log: seq<Event>): nat {
    if log == [] then 0
    else (if log[0].ReadBytes? then log[0].count else 0) + BytesRead(log[1..])
  }

  /** The bytes read in two stretches of a log add up. */
  lemma {:induction false} BytesReadAppend(a: seq<Event>, b: seq<Event>)
    ensures BytesRead(a + b) == BytesRead(a) + BytesRead(b)
  {
    if a != [] {
      BytesReadAppend(a[1..], b);
      assert (a + b)[1..] == a[1..] + b;
    } else {
      assert a + b == b;
    }
  }

  /** A log without reads accounts for no bytes. */
  lemma {:induction false} NoReadsNoBytes(log: seq<Event>)
    requires forall e :: e in log ==> !e.ReadBytes?
    ensures BytesRead(log) == 0
  {
    if log != [] {
      assert log[0] in log;
      assert forall e :: e in log[1..] ==> e in log;
      NoReadsNoBytes(log[1..]);
    }
  }

  /** The reads return, between them, exactly the bytes the body delivers before it stops. */
  lemma {:induction false} ReadsAccountForDrain(steps: seq<ReadStep>, max: nat)
    requires 0 < max
    decreases Size(steps)
    ensures BytesRead(ReadLog(steps, max)) == |Drain(steps).bytes|
  {
    var r := Step(steps, max);
    StepKeepsDrain(steps, max);
    if r.got.Success? && r.got.value != [] {
      StepShrinks(steps, max);
      ReadsAccountForDrain(r.rest, max);
      var log := ReadLog(steps, max);
      assert log == [ReadEvent(r.got)] + ReadLog(r.rest, max);
      assert log[1..] == ReadLog(r.rest, max);
    }
  }

  /**
   * The loop stops at the first read that returns nothing or throws: every read before the last
   * returned bytes, and the last one is empty exactly when the body did not fault.
   */
  lemma {:induction false} StopsAtFirstEmptyRead(steps: seq<ReadStep>, max: nat)
    requires 0 < max
    decreases Size(steps)
    ensures var log := ReadLog(steps, max);
      && |log| >= 1
      && (forall k: nat :: k < |log| - 1 ==> log[k].ReadBytes? && log[k].count > 0)
      && log[|log| - 1] == (if Drain(steps).faulted then ReadFailed else ReadBytes(0))
  {
    var r := Step(steps, max);
    var log := ReadLog(steps, max);
    StepKeepsDrain(steps, max);
    if r.got.Success? && r.got.value != [] {
      StepShrinks(steps, max);
      StopsAtFirstEmptyRead(r.rest, max);
      var tail := ReadLog(r.rest, max);
      assert log == [ReadBytes(|r.got.value|)] + tail;
      assert log[|log| - 1] == tail[|tail| - 1];
      forall k: nat | k < |log| - 1
        ensures log[k].ReadBytes? && log[k].count > 0
      {
        if k > 0 {
          assert log[k] == tail[k - 1];
        }
      }
    } else {
      assert log == [ReadEvent(r.got)];
    }
  }

  /** The copy loop does nothing on the transport but read. */
  lemma OnlyReads(steps: seq<ReadStep>, max: nat)
    requires 0 < max
    ensures forall e :: e in ReadLog(steps, max) ==> e.ReadBytes? || e == ReadFailed
  {
    StopsAtFirstEmptyRead(steps, max);
    var log := ReadLog(steps, max);
    forall e | e in log
      ensures e.ReadBytes? || e == ReadFailed
    {
      var k :| 0 <= k < |log| && log[k] == e;
    }
  }

  /** The pieces of a body that delivers `chunks` one after the other. */
  function Pieces(chunks: seq<seq<byte>>): (r: seq<ReadStep>)
    ensures |r| == |chunks|
    ensures forall k: nat :: k < |r| ==> r[k] == Data(chunks[k])
  {
    if chunks == [] then [] else [Data(chunks[0])] + Pieces(chunks[1..])
  }

  function Flatten(chunks: seq<seq<byte>>): seq<byte> {
    if chunks == [] then [] else chunks[0] + Flatten(chunks[1..])
  }

  /**
   * A body that delivers the non-empty `chunks` and then an empty read (or a fault) drains to
   * their concatenation in order; whatever follows the stop is never read.
   */
  lemma {:induction false} DrainIsConcatenationBeforeStop(chunks: seq<seq<byte>>, stop: ReadStep, rest: seq<ReadStep>)
    requires forall k: nat :: k < |chunks| ==> chunks[k] != []
    requires stop == Data([]) || stop == Fault
    ensures Drain(Pieces(chunks) + [stop] + rest) == Drained(Flatten(chunks), stop == Fault)
  {
    if chunks == [] {
      assert Pieces(chunks) + [stop] + rest == [stop] + rest;
    } else {
      DrainIsConcatenationBeforeStop(chunks[1..], stop, rest);
      PiecesUnfold(chunks, stop, rest);
    }
  }

  /** After such a body has drained, the stop itself is gone unless it is a fault. */
  lemma {:induction false} AfterDrainSkipsToStop(chunks: seq<seq<byte>>, stop: ReadStep, rest: seq<ReadStep>)
    requires forall k: nat :: k < |chunks| ==> chunks[k] != []
    requires stop == Data([]) || stop == Fault
    ensures AfterDrain(Pieces(chunks) + [stop] + rest) == (if stop == Fault then [stop] + rest else rest)
  {
    if chunks == [] {
      assert Pieces(chunks) + [stop] + rest == [stop] + rest;
      assert ([stop] + rest)[1..] == rest;
    } else {
      AfterDrainSkipsToStop(chunks[1..], stop, rest);
      PiecesUnfold(chunks, stop, rest);
    }
  }

  /** The first piece of such a body, and the body after it. */
  lemma PiecesUnfold(chunks: seq<seq<byte>>, stop: ReadStep, rest: seq<ReadStep>)
    requires chunks != []
    ensures var steps := Pieces(chunks) + [stop] + rest;
      steps[0] == Data(chunks[0]) && steps[1..] == Pieces(chunks[1..]) + [stop] + rest
  {
    assert Pieces(chunks) == [Data(chunks[0])] + Pieces(chunks[1..]);
    AppendAssociative([Data(chunks[0])], Pieces(chunks[1..]), [stop]);
    AppendAssociative([Data(chunks[0])], Pieces(chunks[1..]) + [stop], rest);
  }
}
