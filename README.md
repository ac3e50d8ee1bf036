# URL retrieval, modelled in Dafny

This project models the `URL` class of the `DeadDog` string-parsing library (`StringParser/URL.cs`).
A `URL` is an address that must begin with `http://` or `https://`. The class can:

- download the address into memory, with up to three attempts and a two-second sleep after every
  failed attempt;
- reject a response whose declared length exceeds `int.MaxValue`;
- decode the downloaded bytes as text, optionally sniffing the character encoding from the page
  with two regular expressions;
- copy the address into a local file with a single request;
- report the address a request actually resolved to, after redirection;
- compare, hash and print itself by its address.

The files and what they hold:

- `wrappers.dfy`: `Option`, `Result`, and the exceptions the class throws or lets through.
- `url_value.dfy` (`UrlValue`): the value object. It has the constructor's guard, `Address`, the
  two `Equals` overloads, `==` and `!=` (the left operand is dereferenced, so a null left operand
  throws), `GetHashCode` and `ToString`.
- `charset.dfy` (`Charset`): `DetermineEncoding`. The two .NET patterns are written out as search
  functions:
  - `charset="(?<charset>.*)"`: leftmost start, greedy group;
  - `<meta .*?content=".*?charset=(?<charset>.*)"`: leftmost start, two lazy gaps, then a greedy
    group.

  `.` does not cross a line feed. Each search function is proved against a declarative match
  predicate: whatever it returns matches, and the matches it did not choose lose to it the way the
  backtracking matcher decides. Then come the cut at the first space and the lookup, whose failure
  becomes null.
- `transport.dfy` (`Transport`): what the class talks to, as objects it updates.
  - `Network` answers each request from a script of outcomes. It keeps the body of the response
    stream last opened and logs every request, sleep and read.
  - `MemoryStream` and `Disk` are the two sinks.
- `copying.dfy` (`Copying`): the copy loop (read, write what came, stop at the first empty read)
  as a specification.
  - `Drain` gives the bytes a body delivers before its first empty read and says whether it
    stopped at a read that threw.
  - `ReadLog` lists the reads the loop makes with an 8192-byte buffer.
- `retry.dfy` (`Retry`): the bounded retry, which `LoadToMemoryStream` and `GetURL` both use.
  - `FirstUsable` is the first of the three attempts that both gets a response and yields a valid
    `URL` from the resolved address.
  - `RetryLog` is what the loop does on the network.
- `retrieval.dfy` (`Retrieval`): the methods with their loops, each proved against a function
  that gives its whole effect (result, sink contents, log and the unread rest of the body):
  - `LoadToMemoryStream` against `LoadSpec`;
  - `GetFile` against `GetFileSpec`;
  - `GetURL` against `GetUrlSpec`;
  - the `GetHTML` overloads against `LoadSpec` and `DecodeChoice`.

  The lemmas beside them relate these functions to each other and to what the class promises.

Three behaviours of the code are easy to miss. The model follows the code each time:

- When every attempt of `GetURL` fails, its exception handler closes the last response obtained
  before it throws "File could not be loaded after 3 attempts." If no attempt ever got a response,
  there is nothing to close, and the caller gets a null dereference instead of that message.
- The handler sleeps before it tests the attempt count. So three failures make three two-second
  sleeps, the last one just before the exception.
- `GetFile` never disposes the response stream; only its `FileStream` is closed, by its `using`
  block. `LoadToMemoryStream` disposes the stream only on its normal path. `GetURL` closes the
  response before it builds the resolved `URL`.

## Model

| member | source | states |
|---|---|---|
| UrlValue.Create | StringParser/URL.cs:22-27 | construction succeeds exactly when the address starts with `http://` or `https://` and keeps it unchanged; otherwise it is an `ArgumentException` for parameter `url` |
| UrlValue.CreateThenAddress | StringParser/URL.cs:22-27 | `Address` returns the address a successful construction was given; every `https://` address is accepted |
| UrlValue.CreateRejectsOtherSchemes | StringParser/URL.cs:24-25 | the prefix test is case-sensitive and scheme-exact: `ftp://x` and `HTTP://x` are rejected, `https://x` is accepted as is |
| UrlValue.Address | StringParser/URL.cs:268-271 | the `Address` property returns an http(s) address, and constructing a `URL` from it gives back the same instance |
| UrlValue.Equals | StringParser/URL.cs:290-296 | true exactly when the other reference is non-null and has the same address |
| UrlValue.EqualsObject | StringParser/URL.cs:278-284 | an object equals a `URL` exactly when it is a `URL` with the same address; null and other types are unequal |
| UrlValue.OpEquals | StringParser/URL.cs:312-315 | `a == b` throws a null dereference exactly when `a` is null, and otherwise compares addresses |
| UrlValue.OpNotEquals | StringParser/URL.cs:322-325 | `a != b` throws exactly when `a` is null, and otherwise is true when the addresses differ |
| UrlValue.NotEqualsIsNegation | StringParser/URL.cs:322-325 | `!=` fails exactly when `==` fails and otherwise is its negation |
| UrlValue.EqualsIsEquivalence | StringParser/URL.cs:290-296 | `Equals` is reflexive, symmetric and transitive, and false for null |
| UrlValue.EqualUrlsHaveEqualHashCodes | StringParser/URL.cs:301-304 | equal `URL`s have equal hash codes, whatever the string hash is |
| UrlValue.HashCode | StringParser/URL.cs:301-304 | any `URL` equal to this one has this hash code: the string hash of its address, so the hash depends on the address alone |
| UrlValue.ToString | StringParser/URL.cs:331-334 | the text is `URL [`, the address, `]`, and is six characters longer than the address |
| UrlValue.ToStringIsInjective | StringParser/URL.cs:331-334 | two `URL`s print the same exactly when they are equal |
| Charset.GreedyClose | StringParser/URL.cs:104 | the greedy `(.*)"` closes at the last quote on the line; no later quote closes it; none means no quote closes it |
| Charset.FindQuoted | StringParser/URL.cs:104 | the match of `charset="(.*)"` found is a match, no match starts earlier, the chosen start has no longer match, and none means no match anywhere |
| Charset.LazyCharset | StringParser/URL.cs:106 | the lazy `.*?charset=` takes the first `charset=` on the line that can be closed by a quote, then the last such quote |
| Charset.LazyContent | StringParser/URL.cs:106 | the lazy `.*?content="` takes the first `content="` followed by a closable `charset=`, with that `charset=` itself chosen lazily |
| Charset.MetaAt | StringParser/URL.cs:106 | a match of the meta pattern anchored at a position, with the leftmost `content="`, then the leftmost `charset=`, then the last closing quote; none means no match there |
| Charset.FindMeta | StringParser/URL.cs:106 | the leftmost position where the meta pattern matches, with the backtracking choice there; none means it matches nowhere |
| Charset.TruncateAtSpace | StringParser/URL.cs:110-111 | the name is cut just before its first space: the result is a prefix without a space, and the whole name when it has none |
| Charset.DetermineEncoding | StringParser/URL.cs:102-125 | an encoding is returned only when a pattern captured a name, and it is always one the registry holds; otherwise null |
| Charset.QuotedPatternFirst | StringParser/URL.cs:104-107 | whenever `charset="…"` occurs, the captured name is the group of its leftmost occurrence, closed at the last closing quote, and the meta pattern is not consulted |
| Charset.MetaPatternAsFallback | StringParser/URL.cs:105-106 | when the first pattern never matches and the meta pattern does, the name comes from the meta pattern's leftmost match, with the lazy `content="` and `charset=` and the greedy close it picks there |
| Charset.NoMarkerMeansNoEncoding | StringParser/URL.cs:102-125 | there is no name exactly when neither pattern matches anywhere, and then the result is null |
| Charset.EncodingNameHasNoSpace | StringParser/URL.cs:109-111 | the name looked up has no space and is a prefix of the captured group |
| Charset.LookupFailureGivesNull | StringParser/URL.cs:113-122 | an encoding comes back exactly when a name was found and the registry knows it, and it is that entry; an unknown name gives null, not an exception |
| Charset.GreedyGroupKeepsTrailingQuote | StringParser/URL.cs:104-111 | on `charset="a" b="c"` the greedy group runs to the last quote and the cut leaves `a"`, so a later quoted attribute spoils the name |
| Charset.NoCharsetMarkerGivesNoName | StringParser/URL.cs:104-124 | a text in which `charset=` never occurs gives no name, and null whatever the registry |
| Charset.PlainPageHasNoEncoding | StringParser/URL.cs:104-124 | a page without any charset declaration gives null |
| Charset.MetaCharsetAttribute | StringParser/URL.cs:104-111 | `<meta charset="utf-8" />` gives the name `utf-8`: the first pattern closes at the quote before ` />` |
| Charset.MetaContentTypeDeclaration | StringParser/URL.cs:104-111 | `<meta http-equiv="Content-Type" content="text/html; charset=ISO-8859-1">` gives `ISO-8859-1`: the first pattern fails and the meta pattern decides |
| Transport.Step | StringParser/URL.cs:171 | one read returns at most the buffer size; it returns nothing exactly at the end of the body or at an empty piece; it throws an `IOException` exactly at a fault, which stays in place |
| Transport.Network.GetResponse | StringParser/URL.cs:149-150 | a request takes the next scripted outcome, logs the request and leaves the open body alone |
| Transport.Network.OpenStream | StringParser/URL.cs:154 | reads now come from this response's body; nothing else changes |
| Transport.Network.Sleep | StringParser/URL.cs:158 | the sleep is logged and nothing else changes |
| Transport.Network.Read | StringParser/URL.cs:171 | a read returns what `Step` gives, leaves the rest of the body and logs the read |
| Transport.MemoryStream.Write | StringParser/URL.cs:173 | the chunk is appended to the memory stream |
| Transport.Disk.Create | StringParser/URL.cs:212 | `FileMode.Create` leaves the file present and empty, other files untouched |
| Transport.Disk.Append | StringParser/URL.cs:219 | the chunk is appended to that file only |
| Copying.AfterDrain | StringParser/URL.cs:168-175 | what is left after the copy is a suffix of the body, and starts with the fault when the copy stopped at one |
| Copying.StepKeepsDrain | StringParser/URL.cs:169-175 | a read that returns bytes moves exactly those bytes to the front of what the rest drains to; an empty read ends the copy with nothing more; a throwing read ends it with a fault |
| Copying.CopyStep | StringParser/URL.cs:169-175 | one pass of the copy loop keeps it on course for the whole body: a throwing read ends it with everything before the fault copied, an empty read ends it with the whole body copied and the log complete, a read that returns bytes hands them to the sink and leaves a strictly smaller body |
| Copying.ReadsBounded | StringParser/URL.cs:171 | no read of the copy loop returns more than the buffer size |
| Copying.ReadsAccountForDrain | StringParser/URL.cs:168-175 | the reads of the copy loop return, in total, exactly as many bytes as reach the sink |
| Copying.StopsAtFirstEmptyRead | StringParser/URL.cs:168-175 | every read but the last returned bytes, and the last returned none, or threw when the body faulted |
| Copying.DrainIsConcatenationBeforeStop | StringParser/URL.cs:168-175 | a body of non-empty chunks then an empty read (or a fault) delivers exactly the chunks concatenated in order; nothing after the stop is read |
| Copying.AfterDrainSkipsToStop | StringParser/URL.cs:168-175 | after such a body is copied, the stream is positioned just after the empty read, or at the fault |
| Retry.FirstUsable | StringParser/URL.cs:143-163 | the attempt the loop stops at is usable (a response with an http(s) resolved address) and every earlier attempt was not; none means none of the three is usable |
| Retry.Attempts | StringParser/URL.cs:140-163 | the loop issues between one and three requests |
| Retry.AnyResponse | StringParser/URL.cs:233-244 | `response` is non-null after the loop exactly when some attempt got a response |
| Retry.FailureLogShape | StringParser/URL.cs:156-160 | failed attempts alternate a request and a sleep |
| Retry.FailureLogCounts | StringParser/URL.cs:156-160 | `n` failed attempts make exactly `n` requests and `n` sleeps |
| Retry.FailureLogHoldsRequestsAndSleeps | StringParser/URL.cs:143-163 | failed attempts do nothing but request the instance's address and sleep |
| Retry.RetryIsBounded | StringParser/URL.cs:140-163 | at most three requests, all to the instance's own address; one sleep per failed attempt, three when all fail; nothing else |
| Retry.FirstSuccessStopsRetrying | StringParser/URL.cs:143-155 | a usable first response ends the loop after one request and no sleep |
| Retry.ThreeFailuresThreeSleeps | StringParser/URL.cs:156-162 | three failures give request, sleep, request, sleep, request, sleep |
| Retry.InvalidResolvedAddressIsRetried | StringParser/URL.cs:152 | a response redirected to a non-http address counts as a failure inside the `try`, so the next attempt is made |
| Retrieval.Attempt | StringParser/URL.cs:144-163 | one pass of the `try` gives the `URL` of the resolved address exactly when the outcome is usable, and logs a sleep exactly when it is not |
| Retrieval.RequestWithRetry | StringParser/URL.cs:140-163 | the loop stops at the first usable attempt with its resolved `URL`, records whether any response arrived, consumes `Attempts` outcomes and logs `RetryLog` |
| Retrieval.LoadToMemoryStream | StringParser/URL.cs:132-177 | the result, the bytes appended to the memory stream, the log and the unread body are those of `LoadSpec`: exhausted retries, the size guard, or the drained body |
| Retrieval.CopyToMemory | StringParser/URL.cs:168-175 | the memory stream gains exactly the drained bytes; the result is an `IOException` exactly when the body faulted; the reads are `ReadLog` |
| Retrieval.GetFile | StringParser/URL.cs:199-224 | the result, the files, the log and the unread body are those of `GetFileSpec`; exactly one outcome is consumed |
| Retrieval.CopyToFile | StringParser/URL.cs:211-223 | the file created at the path ends up holding exactly the drained bytes, and no other file changes; an `IOException` exactly when the body faulted |
| Retrieval.GetUrl | StringParser/URL.cs:230-263 | the result is `GetUrlSpec` of the outcomes; the log is the retry's; the response body is never read |
| Retrieval.GetHtml | StringParser/URL.cs:42-57 | `GetHTML(bool)` fails as loading fails, and otherwise returns `DecodeChoice` of the loaded bytes |
| Retrieval.GetHtmlWith | StringParser/URL.cs:90-100 | `GetHTML(Encoding, out URL)` returns the loaded bytes decoded in the given encoding together with the resolved `URL`, or loading's failure |
| Retrieval.DecodeChoice | StringParser/URL.cs:51-56 | without detection the text is the ASCII decoding; with it, the text is the ASCII decoding or a decoding in an encoding the registry holds |
| Retrieval.DecodeChoiceFollowsSniffing | StringParser/URL.cs:51-56 | without detection the text is the ASCII decoding; with it, the bytes are decoded in the sniffed encoding when the registry knows its name, and in ASCII otherwise |
| Retrieval.OversizedResponseIsNeverRead | StringParser/URL.cs:165-166 | a declared length above `int.MaxValue` throws `InvalidOperationException` with nothing copied and no read logged |
| Retrieval.LoadReadsAreBounded | StringParser/URL.cs:168-175 | no read of `LoadToMemoryStream` exceeds 8192 bytes, and its reads add up to the bytes loaded |
| Retrieval.LoadCopiesChunksBeforeFirstEmptyRead | StringParser/URL.cs:168-175 | a body of non-empty chunks then an empty read loads exactly those chunks in order and returns the resolved address |
| Retrieval.GetFileRequestsOnce | StringParser/URL.cs:203-222 | `GetFile` logs one request and after it only reads: it neither sleeps nor retries |
| Retrieval.GetFileFailsWithoutRetry | StringParser/URL.cs:206-207 | a request of `GetFile` that fails propagates at once, before the file is created |
| Retrieval.GetFileAgreesWithLoadOnFirstAttempt | StringParser/URL.cs:199-224 | on a usable first response within the size limit, `GetFile` writes exactly the bytes `LoadToMemoryStream` loads, logs the same and succeeds in the same cases |
| Retrieval.GetFileIgnoresDeclaredLength | StringParser/URL.cs:199-224 | `GetFile` has no size guard: it copies a body whose declared length makes `LoadToMemoryStream` throw |
| Retrieval.GetUrlOutcomes | StringParser/URL.cs:230-263 | `GetURL` succeeds exactly when some attempt is usable, with the first usable attempt's resolved address; it is a null dereference exactly when no attempt got a response; otherwise it is the "could not be loaded after 3 attempts" exception |

## Left out

- Network I/O is replaced by `Network`, an oracle that answers each request from a script of
  outcomes. DNS, HTTP and timeouts are whatever makes a scripted outcome `NoResponse`.
- The two-second duration of `Thread.Sleep` is not modelled. Only the fact that a sleep happened
  is logged.
- `GetImage` is not modelled. It needs `Image.FromStream`, an image decoder outside this library.
- Real character encodings are not modelled. `Encoding.GetString` is the parameter `decode`, and
  `Encoding.GetEncoding` is the map `registry` from names to encodings. The look-up is exact: .NET
  matches names ignoring case and accepts aliases, which the registry must list itself.
- Retrieval.GetHtml: the model decodes the bytes written. `MemoryStream.GetBuffer` also returns
  the unused, zero-filled capacity behind them, so the C# text can carry trailing NUL characters.
- Retrieval.GetHtmlWith: the same `GetBuffer` padding is not modelled for `GetHTML(Encoding)` and
  `GetHTML(Encoding, out URL)`.
- UrlValue.Create: the prefix test is ordinal. `String.StartsWith(string)` compares with the
  current culture, which ignores ignorable code points in every culture: a leading soft hyphen
  (U+00AD), and a NUL under ICU. So the C# constructor accepts an address such as a soft hyphen
  followed by `http://x`, which `Create` rejects and `ValidUrl` excludes.
- UrlValue.Create: a null address, which throws a `NullReferenceException` in the constructor,
  is not modelled. Strings are never null here.
- UrlValue.HashCode: hash values are not modelled. The string hash is a parameter, and only its
  consistency with `Equals` is stated.
- Disposal, closing and resource leaks are not modelled. That covers the response stream, the
  response in `GetURL` (including the second `Close` on the failure path), the `FileStream` and the
  memory stream.
- A failure of `GetResponseStream` itself is not modelled. Nor is `new URL` of `AbsoluteUri`
  throwing for a reason other than the scheme.
- Retrieval.GetFile: an invalid local path or a failing `FileStream` constructor or write is not
  modelled.
- Retrieval.LoadToMemoryStream: the declared length is an unbounded `int`, not a 64-bit `long`.
  The comparison with `int.MaxValue` is the same.
- `GetHTML()` and `GetHTML(out URL)` are `GetHtmlWith` at ASCII. `GetHTML(Encoding)` is
  `GetHtmlWith` with the `URL` ignored. `LoadToMemoryStream(ms)` is `LoadToMemoryStream` with the
  result ignored.
- Two pieces of the C# are methods of their own here:
  - the retry loop that `LoadToMemoryStream` and `GetURL` repeat is `RequestWithRetry`;
  - each copy loop is `CopyToMemory` or `CopyToFile`.

  The order of requests, sleeps, reads and writes is unchanged.
- Thread blocking, and the calling thread being held for the whole call, are not modelled.
