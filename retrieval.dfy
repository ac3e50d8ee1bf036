/**
 * The retrieving members of `URL`: `LoadToMemoryStream` (retry, size guard, copy loop) and the
 * `GetHTML` overloads built on it, `GetFile` (one request, copy loop into a file) and `GetURL`
 * (retry, then the resolved address). Each method is proved against a function that gives its
 * whole effect: result, sink contents, transport log and what is left of the response body.
 */
module Retrieval {
  import opened Wrappers
  import opened UrlValue
  import opened Transport
  import opened Charset
  import opened Copying
  import opened Retry

  /** `int.MaxValue`, the largest declared content length `LoadToMemoryStream` accepts. */
  const IntMaxValue: int := 0x7fff_ffff

  /**
   * One pass through the `try` block of the retry loop (request, response, `new URL` of the
   * resolved address) and, when it fails, the `Thread.Sleep` of the `catch`. `responded` says
   * whether `response` was assigned.
   */
  method Attempt(net: Network, self: ValidUrl) returns (got: Option<(ValidUrl, Outcome)>, responded: bool)
    modifies net
    ensures var o := OutcomeAt(old(net.outcomes), 0);
      && (got.Some? <==> Usable(o))
      && (got.Some? ==> got.value.1 == o && o.Response? && got.value.0.address == o.head.resolved)
      && responded == o.Response?
      && net.outcomes == Drop(old(net.outcomes), 1)
      && net.log == old(net.log) + (if Usable(o) then [Requested(self.address)] else [Requested(self.address), Slept])
      && net.body == old(net.body)
  {
    var o := net.GetResponse(self.address);
    responded := o.Response?;
    if o.Response? && Create(o.head.resolved).Success? {
      got := Some((Create(o.head.resolved).value, o));
    } else {
      got := None;
      net.Sleep();
    }
  }

  /** The retry loop shared by `LoadToMemoryStream` and `GetURL`: `goto jan` while `attempt < maxattempt`. */
  method RequestWithRetry(net: Network, self: ValidUrl) returns (got: Option<(ValidUrl, Outcome)>, responded: bool)
    modifies net
    ensures var outs := old(net.outcomes);
      && (got.Some? <==> FirstUsable(outs, 0).Some?)
      && (got.Some? ==> got.value.1 == OutcomeAt(outs, FirstUsable(outs, 0).value))
      && (got.Some? ==> got.value.1.Response? && got.value.0.address == got.value.1.head.resolved)
      && responded == AnyResponse(outs, Attempts(outs))
      && net.outcomes == Drop(outs, Attempts(outs))
      && net.log == old(net.log) + RetryLog(self.address, outs)
      && net.body == old(net.body)
  {
    ghost var outs := net.outcomes;
    ghost var log0 := net.log;
    var attempt := 0;
    got := None;
    responded := false;
    while got.None? && attempt < MaxAttempts
      invariant attempt <= MaxAttempts
      invariant net.body == old(net.body)
      invariant net.outcomes == Drop(outs, attempt)
      invariant responded == AnyResponse(outs, attempt)
      invariant got.None? ==> FirstUsable(outs, 0) == FirstUsable(outs, attempt)
      invariant got.None? ==> net.log == log0 + FailureLog(self.address, attempt)
      invariant got.Some? ==> 1 <= attempt && FirstUsable(outs, 0) == Some(attempt - 1)
      invariant got.Some? ==> got.value.1 == OutcomeAt(outs, attempt - 1) && got.value.1.Response?
      invariant got.Some? ==> got.value.0.address == got.value.1.head.resolved
      invariant got.Some? ==> net.log == log0 + RetryLog(self.address, outs)
      decreases MaxAttempts - attempt
    {
      ghost var logBefore := net.log;
      ghost var prior := FailureLog(self.address, attempt);
      assert FailureLog(self.address, attempt + 1) == prior + [Requested(self.address), Slept];
      var answered;
      got, answered := Attempt(net, self);
      DropOneMore(outs, attempt);
      assert OutcomeAt(Drop(outs, attempt), 0) == OutcomeAt(outs, attempt);
      responded := responded || answered;
      attempt := attempt + 1;
      if got.Some? {
        assert RetryLog(self.address, outs) == prior + [Requested(self.address)];
        AppendAssociative(log0, prior, [Requested(self.address)]);
      } else {
        AppendAssociative(log0, prior, [Requested(self.address), Slept]);
      }
    }
    if got.None? {
      assert RetryLog(self.address, outs) == FailureLog(self.address, MaxAttempts);
    }
  }

  /** The whole effect of `LoadToMemoryStream`. */
  datatype Loaded = Loaded(result: Result<ValidUrl, Exception>, bytes: seq<byte>, log: seq<Event>, body: seq<ReadStep>)

  /**
   * `LoadToMemoryStream(ms, out readURL)` on a transport that answers with `outs`: three failed
   * attempts throw; a declared length above `int.MaxValue` throws before any read; otherwise the
   * body is copied until the first empty read, and a read that throws ends the copy with an
   * `IOException`, the bytes before it already written.
   */
  function LoadSpec(address: string, outs: seq<Outcome>, body: seq<ReadStep>): Loaded {
    match FirstUsable(outs, 0)
    case None => Loaded(Failure(LoadFailed(MaxAttempts)), [], RetryLog(address, outs), body)
    case Some(j) =>
      var o := OutcomeAt(outs, j);
      if o.head.contentLength > IntMaxValue then
        Loaded(Failure(InvalidOperationException), [], RetryLog(address, outs), o.body)
      else
        var d := Drain(o.body);
        var readUrl: ValidUrl := Url(o.head.resolved);
        Loaded(if d.faulted then Failure(IOException) else Success(readUrl),
               d.bytes, RetryLog(address, outs) + ReadLog(o.body, BufferSize), AfterDrain(o.body))
  }

  method LoadToMemoryStream(net: Network, self: ValidUrl, ms: MemoryStream) returns (r: Result<ValidUrl, Exception>)
    modifies net, ms
    ensures var spec := LoadSpec(self.address, old(net.outcomes), old(net.body));
      && r == spec.result
      && ms.data == old(ms.data) + spec.bytes
      && net.log == old(net.log) + spec.log
      && net.body == spec.body
      && net.outcomes == Drop(old(net.outcomes), Attempts(old(net.outcomes)))
  {
    var got, _ := RequestWithRetry(net, self);
    if got.None? {
      return Failure(LoadFailed(MaxAttempts));
    }
    var readUrl := got.value.0;
    var o := got.value.1;
    net.OpenStream(o);
    if o.head.contentLength > IntMaxValue {
      return Failure(InvalidOperationException);
    }
    var copied := CopyToMemory(net, ms);
    if copied.Failure? {
      return Failure(copied.error);
    }
    return Success(readUrl);
  }

  /**
   * The copy loop of `LoadToMemoryStream`: read up to 8192 bytes, write what came to the memory
   * stream, and stop at the first read that returns nothing.
   */
  method CopyToMemory(net: Network, ms: MemoryStream) returns (r: Result<(), Exception>)
    modifies net, ms
    ensures var d := Drain(old(net.body));
      && ms.data == old(ms.data) + d.bytes
      && r == (if d.faulted then Failure(IOException) else Success(()))
      && net.body == AfterDrain(old(net.body))
      && net.log == old(net.log) + ReadLog(old(net.body), BufferSize)
      && net.outcomes == old(net.outcomes)
  {
    ghost var written: seq<byte> := [];
    var done := false;
    while !done
      invariant net.outcomes == old(net.outcomes)
      invariant ms.data == old(ms.data) + written
      invariant !done ==> CopyInProgress(old(net.body), written, net.body, old(net.log), net.log)
      invariant done ==> CopyFinished(old(net.body), written, net.body, old(net.log), net.log)
      decreases Size(net.body), !done
    {
      ghost var before := net.body;
      ghost var logBefore := net.log;
      var count := net.Read(BufferSize);
      CopyStep(old(net.body), written, before, old(net.log), logBefore);
      if count.Failure? {
        return Failure(IOException);
      }
      if |count.value| > 0 {
        ms.Write(count.value);
        AppendAssociative(old(ms.data), written, count.value);
        written := written + count.value;
      } else {
        done := true;
      }
    }
    return Success(());
  }

  /** The whole effect of `GetFile`. */
  datatype Fetched = Fetched(result: Result<(), Exception>, files: map<string, seq<byte>>, log: seq<Event>, body: seq<ReadStep>)

  /**
   * `GetFile(localFile)`: a single request, no retry and no size guard; the file is created
   * (or emptied) once the response stream is open and receives the body up to the first empty read.
   */
  function GetFileSpec(address: string, outs: seq<Outcome>, body: seq<ReadStep>, files: map<string, seq<byte>>, path: string): Fetched {
    var o := OutcomeAt(outs, 0);
    if o.NoResponse? then Fetched(Failure(WebException), files, [Requested(address)], body)
    else
      var d := Drain(o.body);
      Fetched(if d.faulted then Failure(IOException) else Success(()), files[path := d.bytes],
              [Requested(address)] + ReadLog(o.body, BufferSize), AfterDrain(o.body))
  }

  method GetFile(net: Network, self: ValidUrl, disk: Disk, localFile: string) returns (r: Result<(), Exception>)
    modifies net, disk
    ensures var spec := GetFileSpec(self.address, old(net.outcomes), old(net.body), old(disk.files), localFile);
      && r == spec.result
      && disk.files == spec.files
      && net.log == old(net.log) + spec.log
      && net.body == spec.body
      && net.outcomes == Drop(old(net.outcomes), 1)
  {
    var o := net.GetResponse(self.address);
    if o.NoResponse? {
      return Failure(WebException);
    }
    net.OpenStream(o);
    disk.Create(localFile);
    r := CopyToFile(net, disk, localFile);
    AppendAssociative(old(net.log), [Requested(self.address)], ReadLog(o.body, BufferSize));
  }

  /**
   * The copy loop of `GetFile`: read up to 8192 bytes, append what came to the file just created
   * at `path`, and stop at the first read that returns nothing.
   */
  method CopyToFile(net: Network, disk: Disk, path: string) returns (r: Result<(), Exception>)
    requires path in disk.files && disk.files[path] == []
    modifies net, disk
    ensures var d := Drain(old(net.body));
      && disk.files == old(disk.files)[path := d.bytes]
      && r == (if d.faulted then Failure(IOException) else Success(()))
      && net.body == AfterDrain(old(net.body))
      && net.log == old(net.log) + ReadLog(old(net.body), BufferSize)
      && net.outcomes == old(net.outcomes)
  {
    ghost var written: seq<byte> := [];
    var done := false;
    while !done
      invariant net.outcomes == old(net.outcomes)
      invariant disk.files == old(disk.files)[path := written]
      invariant !done ==> CopyInProgress(old(net.body), written, net.body, old(net.log), net.log)
      invariant done ==> CopyFinished(old(net.body), written, net.body, old(net.log), net.log)
      decreases Size(net.body), !done
    {
      ghost var before := net.body;
      ghost var logBefore := net.log;
      var count := net.Read(BufferSize);
      CopyStep(old(net.body), written, before, old(net.log), logBefore);
      if count.Failure? {
        return Failure(IOException);
      }
      if |count.value| != 0 {
        disk.Append(path, count.value);
        assert disk.files == old(disk.files)[path := written + count.value];
        written := written + count.value;
      } else {
        done := true;
      }
    }
    return Success(());
  }

  /**
   * `GetURL()`: the retry loop, then the resolved address. When every attempt fails, the handler
   * closes the last response obtained; if no attempt ever obtained one, that is a null dereference,
   * otherwise the "could not be loaded after 3 attempts" exception.
   */
  function GetUrlSpec(outs: seq<Outcome>): Result<ValidUrl, Exception> {
    match FirstUsable(outs, 0)
    case Some(j) =>
      var readUrl: ValidUrl := Url(OutcomeAt(outs, j).head.resolved);
      Success(readUrl)
    case None =>
      if AnyResponse(outs, MaxAttempts) then Failure(LoadFailed(MaxAttempts))
      else Failure(NullReferenceException)
  }

  method GetUrl(net: Network, self: ValidUrl) returns (r: Result<ValidUrl, Exception>)
    modifies net
    ensures r == GetUrlSpec(old(net.outcomes))
    ensures net.log == old(net.log) + RetryLog(self.address, old(net.outcomes))
    ensures net.outcomes == Drop(old(net.outcomes), Attempts(old(net.outcomes)))
    ensures net.body == old(net.body)
  {
    var got, responded := RequestWithRetry(net, self);
    if got.Some? {
      return Success(got.value.0);
    }
    if !responded {
      return Failure(NullReferenceException);
    }
    return Failure(LoadFailed(MaxAttempts));
  }

  /**
   * The text `GetHTML(detectEncoding)` returns for the bytes loaded: their ASCII decoding, or,
   * when detecting, their decoding in the encoding sniffed from that ASCII text, ASCII again if
   * nothing is found. `decode` stands for `Encoding.GetString`.
   */
  function DecodeChoice(buffer: seq<byte>, detect: bool, registry: map<string, Encoding>,
                        decode: (Encoding, seq<byte>) -> string): (r: string)
    ensures !detect ==> r == decode(Ascii, buffer)
    ensures r == decode(Ascii, buffer) || exists e :: e in registry.Values && r == decode(e, buffer)
  {
    var temp := decode(Ascii, buffer);
    if !detect then temp
    else decode(DetermineEncoding(temp, registry).GetOr(Ascii), buffer)
  }

  /** `GetHTML(bool detectEncoding)`; `GetHTML()` is `GetHtmlWith` at ASCII. */
  method GetHtml(net: Network, self: ValidUrl, detect: bool, registry: map<string, Encoding>,
                 decode: (Encoding, seq<byte>) -> string) returns (r: Result<string, Exception>)
    modifies net
    ensures var spec := LoadSpec(self.address, old(net.outcomes), old(net.body));
      && r == (if spec.result.Failure? then Failure(spec.result.error)
               else Success(DecodeChoice(spec.bytes, detect, registry, decode)))
      && net.log == old(net.log) + spec.log
      && net.body == spec.body
      && net.outcomes == Drop(old(net.outcomes), Attempts(old(net.outcomes)))
  {
    var ms := new MemoryStream();
    var loaded := LoadToMemoryStream(net, self, ms);
    ghost var spec := LoadSpec(self.address, old(net.outcomes), old(net.body));
    assert loaded == spec.result && ms.data == [] + spec.bytes;
    if loaded.Failure? {
      return Failure(loaded.error);
    }
    var buffer := ms.data;
    assert buffer == spec.bytes;
    var temp := decode(Ascii, buffer);
    if !detect {
      return Success(temp);
    }
    var enc := DetermineEncoding(temp, registry).GetOr(Ascii);
    return Success(decode(enc, buffer));
  }

  /**
   * `GetHTML(Encoding)` and `GetHTML(Encoding, out URL)` (and so `GetHTML()` and
   * `GetHTML(out URL)` at ASCII): the loaded bytes decoded in the given encoding, with the
   * address that was actually read.
   */
  method GetHtmlWith(net: Network, self: ValidUrl, encoding: Encoding,
                     decode: (Encoding, seq<byte>) -> string) returns (r: Result<(string, ValidUrl), Exception>)
    modifies net
    ensures var spec := LoadSpec(self.address, old(net.outcomes), old(net.body));
      && r == (if spec.result.Failure? then Failure(spec.result.error)
               else Success((decode(encoding, spec.bytes), spec.result.value)))
      && net.log == old(net.log) + spec.log
      && net.body == spec.body
      && net.outcomes == Drop(old(net.outcomes), Attempts(old(net.outcomes)))
  {
    var ms := new MemoryStream();
    var loaded := LoadToMemoryStream(net, self, ms);
    ghost var spec := LoadSpec(self.address, old(net.outcomes), old(net.body));
    assert loaded == spec.result && ms.data == [] + spec.bytes;
    assert ms.data == spec.bytes;
    if loaded.Failure? {
      return Failure(loaded.error);
    }
    return Success((decode(encoding, ms.data), loaded.value));
  }

  /**
   * `GetHTML(false)` is the plain ASCII text; `GetHTML(true)` decodes in the encoding named in
   * that text when the registry knows it, and in ASCII when no name is found or it is unknown.
   */
  lemma DecodeChoiceFollowsSniffing(buffer: seq<byte>, detect: bool, registry: map<string, Encoding>,
                                    decode: (Encoding, seq<byte>) -> string)
    ensures !detect ==> DecodeChoice(buffer, detect, registry, decode) == decode(Ascii, buffer)
    ensures detect ==>
      var name := EncodingName(decode(Ascii, buffer));
      DecodeChoice(buffer, detect, registry, decode) ==
        if name.Some? && name.value in registry then decode(registry[name.value], buffer)
        else decode(Ascii, buffer)
  {
    LookupFailureGivesNull(decode(Ascii, buffer), registry);
  }

  /** The size guard throws before any read: nothing reaches the sink and the log holds only the retry. */
  lemma OversizedResponseIsNeverRead(address: string, outs: seq<Outcome>, body: seq<ReadStep>)
    requires FirstUsable(outs, 0).Some?
    requires OutcomeAt(outs, FirstUsable(outs, 0).value).head.contentLength > IntMaxValue
    ensures LoadSpec(address, outs, body).result == Failure(InvalidOperationException)
    ensures LoadSpec(address, outs, body).bytes == []
    ensures forall e :: e in LoadSpec(address, outs, body).log ==> e == Requested(address) || e == Slept
  {
    RetryIsBounded(address, outs);
  }

  /** No read of `LoadToMemoryStream` exceeds the 8192-byte buffer, and the reads add up to the bytes loaded. */
  lemma LoadReadsAreBounded(address: string, outs: seq<Outcome>, body: seq<ReadStep>)
    ensures var log := LoadSpec(address, outs, body).log;
      forall k: nat :: k < |log| && log[k].ReadBytes? ==> log[k].count <= BufferSize
    ensures BytesRead(LoadSpec(address, outs, body).log) == |LoadSpec(address, outs, body).bytes|
  {
    var spec := LoadSpec(address, outs, body);
    var retry := RetryLog(address, outs);
    RetryIsBounded(address, outs);
    NoReadsNoBytes(retry);
    match FirstUsable(outs, 0)
    case None =>
    case Some(j) =>
      var o := OutcomeAt(outs, j);
      if o.head.contentLength <= IntMaxValue {
        var copied := ReadLog(o.body, BufferSize);
        assert spec.log == retry + copied;
        ReadsBounded(o.body, BufferSize);
        ReadsAccountForDrain(o.body, BufferSize);
        BytesReadAppend(retry, copied);
        forall k: nat | |retry| <= k < |spec.log|
          ensures spec.log[k] == copied[k - |retry|]
        {
        }
      }
  }

  /**
   * With a usable response within the size limit, the sink receives exactly the chunks the body
   * delivers before its first empty read, in order, and the resolved address is returned.
   */
  lemma LoadCopiesChunksBeforeFirstEmptyRead(address: string, outs: seq<Outcome>, body: seq<ReadStep>,
                                             chunks: seq<seq<byte>>, rest: seq<ReadStep>)
    requires FirstUsable(outs, 0).Some?
    requires OutcomeAt(outs, FirstUsable(outs, 0).value).head.contentLength <= IntMaxValue
    requires OutcomeAt(outs, FirstUsable(outs, 0).value).body == Pieces(chunks) + [Data([])] + rest
    requires forall k: nat :: k < |chunks| ==> chunks[k] != []
    ensures LoadSpec(address, outs, body).bytes == Flatten(chunks)
    ensures LoadSpec(address, outs, body).result.Success?
    ensures LoadSpec(address, outs, body).result.value.address == OutcomeAt(outs, FirstUsable(outs, 0).value).head.resolved
  {
    DrainIsConcatenationBeforeStop(chunks, Data([]), rest);
  }

  /** `GetFile` makes one request and never sleeps: after the request the log holds only reads. */
  lemma GetFileRequestsOnce(address: string, outs: seq<Outcome>, body: seq<ReadStep>,
                            files: map<string, seq<byte>>, path: string)
    ensures var log := GetFileSpec(address, outs, body, files, path).log;
      && log[0] == Requested(address)
      && forall e :: e in log[1..] ==> e.ReadBytes? || e == ReadFailed
  {
    var o := OutcomeAt(outs, 0);
    var log := GetFileSpec(address, outs, body, files, path).log;
    if o.Response? {
      var copied := ReadLog(o.body, BufferSize);
      OnlyReads(o.body, BufferSize);
      assert log == [Requested(address)] + copied;
      assert log[1..] == copied;
    } else {
      assert log[1..] == [];
    }
  }

  /** A request of `GetFile` that fails throws at once and leaves the files as they were. */
  lemma GetFileFailsWithoutRetry(address: string, outs: seq<Outcome>, body: seq<ReadStep>,
                                 files: map<string, seq<byte>>, path: string)
    requires OutcomeAt(outs, 0).NoResponse?
    ensures GetFileSpec(address, outs, body, files, path).result == Failure(WebException)
    ensures GetFileSpec(address, outs, body, files, path).files == files
    ensures GetFileSpec(address, outs, body, files, path).log == [Requested(address)]
  {
  }

  /**
   * On a usable first response within the size limit, `GetFile` writes exactly the bytes
   * `LoadToMemoryStream` loads, succeeds when it succeeds, and logs the same.
   */
  lemma GetFileAgreesWithLoadOnFirstAttempt(address: string, outs: seq<Outcome>, body: seq<ReadStep>,
                                            files: map<string, seq<byte>>, path: string)
    requires Usable(OutcomeAt(outs, 0))
    requires OutcomeAt(outs, 0).head.contentLength <= IntMaxValue
    ensures GetFileSpec(address, outs, body, files, path).files[path] == LoadSpec(address, outs, body).bytes
    ensures GetFileSpec(address, outs, body, files, path).result.Success? <==> LoadSpec(address, outs, body).result.Success?
    ensures GetFileSpec(address, outs, body, files, path).log == LoadSpec(address, outs, body).log
  {
    FirstSuccessStopsRetrying(address, outs);
  }

  /** `GetFile` has no size guard: it copies a body whose declared length `LoadToMemoryStream` rejects. */
  lemma GetFileIgnoresDeclaredLength(address: string, outs: seq<Outcome>, body: seq<ReadStep>,
                                     files: map<string, seq<byte>>, path: string)
    requires Usable(OutcomeAt(outs, 0))
    requires OutcomeAt(outs, 0).head.contentLength > IntMaxValue
    ensures LoadSpec(address, outs, body).result == Failure(InvalidOperationException)
    ensures LoadSpec(address, outs, body).bytes == []
    ensures GetFileSpec(address, outs, body, files, path).files[path] == Drain(OutcomeAt(outs, 0).body).bytes
  {
  }

  /**
   * How `GetURL` ends: the first usable response's address; the "could not be loaded after 3
   * attempts" exception when responses came but none was usable; a null dereference when no
   * attempt obtained a response at all.
   */
  lemma GetUrlOutcomes(outs: seq<Outcome>)
    ensures GetUrlSpec(outs).Success? <==> exists m: nat :: m < MaxAttempts && Usable(OutcomeAt(outs, m))
    ensures GetUrlSpec(outs).Success? ==>
      GetUrlSpec(outs).value.address == OutcomeAt(outs, FirstUsable(outs, 0).value).head.resolved
    ensures GetUrlSpec(outs) == Failure(NullReferenceException) <==>
      forall m: nat :: m < MaxAttempts ==> OutcomeAt(outs, m).NoResponse?
    ensures GetUrlSpec(outs) == Failure(LoadFailed(MaxAttempts)) <==>
      (forall m: nat :: m < MaxAttempts ==> !Usable(OutcomeAt(outs, m)))
      && exists m: nat :: m < MaxAttempts && OutcomeAt(outs, m).Response?
  {
  }
}
