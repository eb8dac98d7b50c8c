/**
  The response emitter of the request handler: sleep for the delay, add the
  headers of the header-description file, write the status code, write the
  body file. The response writer is a recorder holding the header list and
  the trace of effects in the order they happen; file contents are given, as
  None when the file cannot be read.
 */
module Emission {
  import opened Wrappers
  import opened GoStrings
  import opened Routing
  import opened HeaderParsing

  /** One observable effect of the handler. */
  datatype Event =
    | Slept(nanos: int)                        // time.Sleep for that many nanoseconds
    | HeaderAdded(name: string, value: string) // w.Header().Add(name, value)
    | Panicked(line: nat)                      // the header line at this index has no ':'
    | StatusWritten(code: int64)               // w.WriteHeader(code)
    | BodyWritten(body: string)                // w.Write(body)

  const NanosPerSecond := 1_000_000_000
  const TwoTo63 := 0x8000_0000_0000_0000

  /** Two's-complement wrap-around of a product into a Go int64. */
  function WrapInt64(x: int): int
  {
    (x + TwoTo63) % (2 * TwoTo63) - TwoTo63
  }

  /** time.Duration(delay) * time.Second, in nanoseconds. */
  function SleepDuration(delay: int64): int
  {
    WrapInt64(delay as int * NanosPerSecond)
  }

  /** Within about 292 years either way, the pause is the delay in seconds. */
  lemma SleepDurationExact(delay: int64)
    requires -9_223_372_036 <= delay as int <= 9_223_372_036
    ensures SleepDuration(delay) == delay as int * NanosPerSecond
  {
  }

  /** Beyond that the multiplication wraps: a delay of 9223372037 seconds
      becomes a negative duration, and time.Sleep returns at once. */
  lemma SleepDurationWraps()
    ensures SleepDuration(9_223_372_037) < 0
  {
  }

  /** What a header file gives: nothing when it cannot be read. */
  function HeaderOutcomeOf(headerFile: Option<string>): HeaderOutcome
  {
    match headerFile
    case None => Complete([])
    case Some(text) => ParseHeaderText(text)
  }

  /** One HeaderAdded event per header, in order. */
  function AddedEvents(hs: seq<Header>): seq<Event>
  {
    seq(|hs|, k requires 0 <= k < |hs| => HeaderAdded(hs[k].name, hs[k].value))
  }

  /** The panic that ends a header loop, if any. */
  function PanicEvents(o: HeaderOutcome): seq<Event>
  {
    match o
    case Complete(_) => []
    case Aborted(_, k) => [Panicked(k)]
  }

  /** The body write, when the body file could be read. */
  function BodyEvents(bodyFile: Option<string>): seq<Event>
  {
    match bodyFile
    case None => []
    case Some(body) => [BodyWritten(body)]
  }

  /** The effects of answering with `response` when the header loop came to
      `o` and the body file read gave `bodyFile`. */
  function Trace(response: HeaderAndBody, o: HeaderOutcome, bodyFile: Option<string>): seq<Event>
  {
    [Slept(SleepDuration(response.Delay))] + AddedEvents(o.headers) +
      if o.Aborted? then PanicEvents(o)
      else [StatusWritten(response.HttpCode)] + BodyEvents(bodyFile)
  }

  /** The effects of answering with `response`, given the contents of its
      header file and of its body file. */
  function EmitTrace(response: HeaderAndBody, headerFile: Option<string>, bodyFile: Option<string>): seq<Event>
  {
    Trace(response, HeaderOutcomeOf(headerFile), bodyFile)
  }

  /** A file read against a snapshot of the file system: None when there is
      no file at that path, and always for the empty path, which no file can
      be opened under (as for the zero record's Header and Body). */
  function ReadFile(files: map<string, string>, path: string): Option<string>
  {
    if path != "" && path in files then Some(files[path]) else None
  }

  /** The effects of handling one request against the table and the files. */
  function HandleTrace(table: map<string, HeaderAndBody>, verb: string, requestURI: string,
                       files: map<string, string>): seq<Event>
  {
    var response := Resolve(table, verb, requestURI);
    EmitTrace(response, ReadFile(files, response.Header), ReadFile(files, response.Body))
  }

  /** A request served the zero record (no entry under its key and no
      fallback) sleeps for no time and writes status 0 and nothing else: the
      record's header and body paths are empty, so neither file is read. */
  lemma ZeroRecordTrace(table: map<string, HeaderAndBody>, verb: string, requestURI: string,
                        files: map<string, string>)
    requires Resolve(table, verb, requestURI) == Zero
    ensures HandleTrace(table, verb, requestURI, files) == [Slept(0), StatusWritten(0)]
  {
  }

  /** The order in which effects happen. */
  function Phase(e: Event): nat
  {
    match e
    case Slept(_) => 0
    case HeaderAdded(_, _) => 1
    case Panicked(_) => 2
    case StatusWritten(_) => 2
    case BodyWritten(_) => 3
  }

  /** The trace as the emitter builds it: sleep, headers, panic if any, then
      the status and the body if no panic. */
  lemma TraceSteps(response: HeaderAndBody, o: HeaderOutcome, bodyFile: Option<string>)
    ensures Trace(response, o, bodyFile) == [Slept(SleepDuration(response.Delay))] + AddedEvents(o.headers) +
      PanicEvents(o) + (if o.Complete? then [StatusWritten(response.HttpCode)] + BodyEvents(bodyFile) else [])
  {
  }

  lemma Concat5<T>(a: seq<T>, b: seq<T>, c: seq<T>, d: seq<T>, e: seq<T>)
    ensures a + b + c + d + e == a + (b + c + d + e)
  {
  }

  /** The sleep comes first and only once, and then headers, then the status
      or the panic, then the body: never anything out of that order. */
  lemma TraceOrder(response: HeaderAndBody, o: HeaderOutcome, bodyFile: Option<string>)
    ensures var t := Trace(response, o, bodyFile);
      |t| >= 2 && t[0] == Slept(SleepDuration(response.Delay)) &&
      (forall i :: 0 < i < |t| ==> !t[i].Slept?) &&
      (forall i, j :: 0 <= i < j < |t| ==> Phase(t[i]) <= Phase(t[j]))
  {
    var t := Trace(response, o, bodyFile);
    var n := |o.headers|;
    assert forall i :: 1 <= i <= n ==> t[i] == AddedEvents(o.headers)[i - 1];
    assert forall i :: n + 1 <= i < |t| ==> Phase(t[i]) >= 2;
    assert forall i :: n + 2 <= i < |t| ==> t[i].BodyWritten?;
  }

  /** The status code is written exactly once, verbatim, right after the
      headers, unless a header line panicked; then it is never written. */
  lemma TraceStatusOnce(response: HeaderAndBody, o: HeaderOutcome, bodyFile: Option<string>)
    ensures var t := Trace(response, o, bodyFile);
      (forall i :: 0 <= i < |t| ==> (t[i].StatusWritten? <==> o.Complete? && i == |o.headers| + 1)) &&
      (o.Complete? ==> t[|o.headers| + 1] == StatusWritten(response.HttpCode))
  {
    var t := Trace(response, o, bodyFile);
    assert forall i :: 1 <= i <= |o.headers| ==> t[i] == AddedEvents(o.headers)[i - 1];
  }

  /** Each parsed header is added once, in file order, between the sleep and
      the status. */
  lemma TraceHeadersInOrder(response: HeaderAndBody, o: HeaderOutcome, bodyFile: Option<string>)
    ensures var t := Trace(response, o, bodyFile);
      var hs := o.headers;
      (forall i :: 0 <= i < |t| ==> (t[i].HeaderAdded? <==> 1 <= i <= |hs|)) &&
      (forall k :: 0 <= k < |hs| ==> t[k + 1] == HeaderAdded(hs[k].name, hs[k].value))
  {
    var t := Trace(response, o, bodyFile);
    assert forall i :: 1 <= i <= |o.headers| ==> t[i] == AddedEvents(o.headers)[i - 1];
  }

  /** The body is written, last, exactly when the body file was read and no
      header line panicked; otherwise nothing follows the status (or the
      panic). A panic is recorded only for a header loop that aborted, and
      then last. The trace is one event per header plus the sleep, the
      status or the panic, and the body if written. */
  lemma TraceBodyLast(response: HeaderAndBody, o: HeaderOutcome, bodyFile: Option<string>)
    ensures var t := Trace(response, o, bodyFile);
      (forall i :: 0 <= i < |t| ==> (t[i].BodyWritten? <==> o.Complete? && bodyFile.Some? && i == |t| - 1)) &&
      (o.Complete? && bodyFile.Some? ==> t[|t| - 1] == BodyWritten(bodyFile.value)) &&
      (o.Complete? && bodyFile.None? ==> t[|t| - 1] == StatusWritten(response.HttpCode)) &&
      (o.Aborted? ==> t[|t| - 1] == Panicked(o.line)) &&
      (forall i :: 0 <= i < |t| ==> (t[i].Panicked? <==> o.Aborted? && i == |t| - 1)) &&
      |t| == |o.headers| + 2 + (if o.Complete? && bodyFile.Some? then 1 else 0)
  {
    var t := Trace(response, o, bodyFile);
    assert forall i :: 1 <= i <= |o.headers| ==> t[i] == AddedEvents(o.headers)[i - 1];
  }

  /** An unreadable header file, or one made only of spaces, adds no header,
      and the status and the body are still written. */
  lemma NoHeaderFileStillResponds(response: HeaderAndBody, headerFile: Option<string>, bodyFile: Option<string>)
    requires headerFile.Some? ==> forall k :: 0 <= k < |headerFile.value| ==> headerFile.value[k] == ' '
    ensures EmitTrace(response, headerFile, bodyFile)
      == [Slept(SleepDuration(response.Delay)), StatusWritten(response.HttpCode)] + BodyEvents(bodyFile)
  {
    if headerFile.Some? {
      SpacesOnlyAddNothing(headerFile.value);
    }
    assert AddedEvents([]) == [];
  }

  lemma AddedEventsAppend(hs: seq<Header>, h: Header)
    ensures AddedEvents(hs + [h]) == AddedEvents(hs) + [HeaderAdded(h.name, h.value)]
  {
  }

  /** The response writer of one request: the header list it has been given
      and the trace of effects so far. */
  class ResponseRecorder {
    var headers: seq<Header>
    var events: seq<Event>

    constructor ()
      ensures headers == [] && events == []
    {
      headers := [];
      events := [];
    }

    /** The header loop: split the text into lines and add the header each
        line gives, until a line without ':' panics. */
    method AddHeaders(text: string) returns (ok: bool)
      modifies this
      ensures var o := ParseHeaderLines(Split(text, '\n'));
        ok == o.Complete? &&
        headers == old(headers) + o.headers &&
        events == old(events) + AddedEvents(o.headers) + PanicEvents(o)
    {
      var lines := Split(text, '\n');
      ghost var added: seq<Header> := [];
      var i := 0;
      while i < |lines|
        invariant 0 <= i <= |lines| && |added| == i
        invariant forall k :: 0 <= k < i ==> ParseLine(lines[k]) == Some(added[k])
        invariant headers == old(headers) + added
        invariant events == old(events) + AddedEvents(added)
      {
        match ParseLine(lines[i]) {
          case None =>
            FirstBadLine(lines, added, i);
            events := events + [Panicked(i)];
            return false;
          case Some(h) =>
            AddedEventsAppend(added, h);
            headers := headers + [h];
            events := events + [HeaderAdded(h.name, h.value)];
            added := added + [h];
        }
        i := i + 1;
      }
      AllLinesGiveHeaders(lines, added);
      return true;
    }

    /** The header step: nothing when the header file cannot be read or
        holds only spaces, otherwise the header loop over its text. */
    method WriteHeaders(headerFile: Option<string>) returns (ok: bool)
      modifies this
      ensures var o := HeaderOutcomeOf(headerFile);
        ok == o.Complete? &&
        headers == old(headers) + o.headers &&
        events == old(events) + AddedEvents(o.headers) + PanicEvents(o)
    {
      if headerFile.Some? && Trim(headerFile.value, ' ') != "" {
        ok := AddHeaders(headerFile.value);
      } else {
        assert AddedEvents([]) == [];
        ok := true;
      }
    }

    /** The status step and the body step: WriteHeader with the code as
        given, then the body when its file could be read. */
    method WriteStatusAndBody(code: int64, bodyFile: Option<string>)
      modifies this
      ensures headers == old(headers)
      ensures events == old(events) + [StatusWritten(code)] + BodyEvents(bodyFile)
    {
      events := events + [StatusWritten(code)];
      if bodyFile.Some? {
        events := events + [BodyWritten(bodyFile.value)];
      }
    }

    /** The emission sequence for one resolved response. */
    method Emit(response: HeaderAndBody, headerFile: Option<string>, bodyFile: Option<string>)
      modifies this
      ensures headers == old(headers) + HeaderOutcomeOf(headerFile).headers
      ensures events == old(events) + EmitTrace(response, headerFile, bodyFile)
    {
      ghost var o := HeaderOutcomeOf(headerFile);
      ghost var before := events;
      var slept := [Slept(SleepDuration(response.Delay))];
      events := events + slept;
      var ok := WriteHeaders(headerFile);
      ghost var rest: seq<Event> := [];
      if ok {
        WriteStatusAndBody(response.HttpCode, bodyFile);
        rest := [StatusWritten(response.HttpCode)] + BodyEvents(bodyFile);
      }
      TraceSteps(response, o, bodyFile);
      Concat5(before, slept, AddedEvents(o.headers), PanicEvents(o), rest);
    }

    /** The whole handler: resolve the request against the table, then emit
        the response with the files it names. */
    method Serve(table: map<string, HeaderAndBody>, verb: string, requestURI: string,
                 files: map<string, string>)
      modifies this
      ensures var response := Resolve(table, verb, requestURI);
        headers == old(headers) + HeaderOutcomeOf(ReadFile(files, response.Header)).headers
      ensures events == old(events) + HandleTrace(table, verb, requestURI, files)
    {
      var response := Resolve(table, verb, requestURI);
      Emit(response, ReadFile(files, response.Header), ReadFile(files, response.Body));
    }
  }
}
