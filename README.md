# http-mock-server request handler, modelled in Dafny

http-mock-server answers every HTTP request from a table of canned responses.
The table maps the key `METHOD|path` to a `HeaderAndBody` record: a status
code, a delay in seconds, the path of a header-description file and the path
of a body file. The request handler does four things:

1. It builds the route key from the request's method and its request target,
   with the `/` characters at both ends trimmed off.
2. It looks the key up and falls back to the `default|default` entry when the
   entry is missing or zero.
3. It sleeps for the delay and then adds one response header for each line of
   the header-description file.
4. It writes the status code, then the contents of the body file.

The model has five modules:

- `Wrappers`: the `Option` type.
- `GoStrings`: Go's `strings.Trim`, `strings.Split` and `strings.Join`, for
  the one-character cutsets and separators the handler uses, on `seq<char>`.
- `Routing`: the `HeaderAndBody` record, the route key, the Go map index
  (a missing key gives the zero value) and the fallback.
- `HeaderParsing`: how a header-description text becomes headers. This
  includes the run-time panic on a line without `:`.
- `Emission`: the handler's effects as a trace of events. These are the
  sleep, each header added, the panic, the status written and the body
  written. The `ResponseRecorder` class has a header list and an event list
  that its methods extend step by step, as the handler does to its
  `http.ResponseWriter`. Its `Serve` method is the whole handler, and it is
  proved to produce exactly `HandleTrace`.

File contents are parameters. `Serve` takes a snapshot of the file system as
a map from path to text, and `Emit` takes each file as `Option<string>`:
`None` when the file cannot be read. A sleep is recorded as an event
holding its duration in nanoseconds.

Where main.go differs from the project's documented behaviour, the model
follows main.go:

- The method is used as received (`get` and `GET` are different routes).
- The query string stays in the key, because the key is built from
  `RequestURI`.
- A header line without `:` is not skipped. Indexing `keyValue[1]` panics,
  and net/http aborts the request. So the trace ends with `Panicked`: the
  headers of the earlier lines were added, and no status or body follows.
- The header value is the text between the first and the second `:`, not
  everything after the first `:`. Anything after a second `:` is dropped.
- The status is written exactly as configured. There is no default of 200,
  and Go's own validation of the code is not part of this model.
- The key separator is `|`, and the fallback key is `default|default`.

## Model

| member | source | states |
|---|---|---|
| Routing.RouteKey | main.go:125 | The key is the method as received, then `\|`, then the request target with all leading and trailing `/` removed: the rest of the key neither starts nor ends with `/`, and the target is that rest with slashes padded on each side |
| Routing.RouteKeyOfTrimmed | main.go:125 | A target that neither starts nor ends with `/` goes into the key unchanged |
| Routing.RouteKeyPaddingInvariant | main.go:125 | Any number of slashes added at either end of the target do not change the key |
| Routing.RouteKeyExamples | main.go:125 | `/p/`, `//p//` and `p` all give the key `verb\|p`; interior slashes are kept |
| Routing.RouteKeyLeadingSlash | main.go:125 | The one leading slash of an otherwise trimmed target is dropped |
| Routing.RouteKeyKeepsQuery | main.go:125 | The query string is part of the key: `/path?query` gives `verb\|path?query` |
| Routing.RouteKeySeparatesMethods | main.go:125 | Different methods give different keys for the same target (no case folding) |
| Routing.RouteKeyParts | main.go:125 | For a method without `\|`, the first `\|` of the key ends the method, and the trimmed target follows it |
| Routing.Lookup | main.go:126 | No contract of its own: Go's map index, the stored entry or the zero record for a missing key. `Resolve`'s contract and `ResolveZeroIff` state what it gives the handler |
| Routing.Resolve | main.go:125-130 | The entry under the key when present and non-zero; otherwise the `default\|default` entry; otherwise the zero record |
| Routing.ResolveZeroIff | main.go:126-130 | The zero record is served exactly when both the keyed entry and the fallback entry are missing or zero |
| Routing.ResolvePaddingInvariant | main.go:125-130 | Targets that differ only in slashes at the ends are served the same response |
| Routing.ResolveScenario | main.go:125-130 | With a table holding one route and a fallback, that route gets its own entry and every other route gets the fallback |
| GoStrings.TrimLeft | main.go:125 | Its own contract states only that the result is no longer than the input. `TrimLeftShape` gives its exact shape |
| GoStrings.TrimRight | main.go:125 | Its own contract states only that the result is no longer than the input. `TrimRightShape` gives its exact shape |
| GoStrings.Trim | main.go:125 | No contract of its own: `TrimRight` of `TrimLeft`, as `strings.Trim` with a one-character cutset behaves. `TrimShape` gives its exact shape, and `TrimIdempotent`, `TrimPaddingInvariant` and `TrimEmptyIff` describe it |
| GoStrings.TrimLeftShape | main.go:125 | Trimming the left side removes a leading run of the cutset character, and all of that run |
| GoStrings.TrimRightShape | main.go:125 | Trimming the right side removes a trailing run of the cutset character, and all of that run |
| GoStrings.TrimLeftPadded | main.go:125 | Extra leading copies of the cutset character do not change the left trim |
| GoStrings.TrimRightPadded | main.go:125 | Extra trailing copies of the cutset character do not change the right trim |
| GoStrings.TrimOfPadded | main.go:125 | Trim undoes padding: trimming a padded string that has no padding of its own gives that string back |
| GoStrings.TrimShape | main.go:125 | The trimmed string has the cutset character at neither end, and the input is that string padded on each side |
| GoStrings.TrimIdempotent | main.go:125 | Trimming twice is the same as trimming once |
| GoStrings.TrimPaddingInvariant | main.go:125 | Padding with the cutset character does not change what Trim returns |
| GoStrings.TrimEmptyIff | main.go:149 | Trim gives the empty string exactly when the input is made only of the cutset character |
| GoStrings.IndexOf | main.go:155 | The index of the first occurrence of the character, or the length when the character does not occur |
| GoStrings.Split | main.go:151 | Split always returns at least one piece, even for the empty string |
| GoStrings.JoinSplit | main.go:151 | No piece contains the separator, and joining the pieces with it gives back the input |
| GoStrings.SplitJoin | main.go:151 | Splitting a join of separator-free pieces gives back the pieces |
| GoStrings.SplitCount | main.go:151 | Split returns one more piece than there are separators |
| GoStrings.SplitFirstPieces | main.go:155-157 | The first piece is the text before the first separator; there is a second piece exactly when the separator occurs, and it is the text up to the next separator |
| GoStrings.SplitLastEmpty | main.go:151 | A string that ends with the separator has an empty last piece |
| HeaderParsing.ParseLine | main.go:155-157 | A line gives a header exactly when it contains `:`; otherwise indexing its second piece panics |
| HeaderParsing.SecondField | main.go:157 | No contract of its own: the text between the first and the second `:`, or to the end of the line when there is no second one. `ParseLineFields` ties it to the header's value |
| HeaderParsing.ParseLineFields | main.go:155-157 | The name is the text before the first `:`, and the value is the text between the first and second `:`, both trimmed of spaces |
| HeaderParsing.ParseHeaderLines | main.go:153-158 | The loop adds the headers of the lines in order. It completes exactly when every line contains `:`, with one header per line. Otherwise it stops at the first line without `:`, after the headers of the lines before it |
| HeaderParsing.AbortedIsFinal | main.go:153-158 | After a line panics, the lines after it change nothing |
| HeaderParsing.AllLinesGiveHeaders | main.go:153-158 | Lines that each give a header give exactly those headers, in order |
| HeaderParsing.FirstBadLine | main.go:153-158 | When the lines before line n give headers and line n has no `:`, parsing aborts at n with exactly those headers |
| HeaderParsing.ParseHeaderText | main.go:149-151 | No contract of its own: no headers for a blank text, otherwise `ParseHeaderLines` of its newline-separated lines. `SpacesOnlyAddNothing`, `OneHeaderPerLine`, `TrailingNewlinePanics` and `TwoHeaders` describe it |
| HeaderParsing.SpacesOnlyAddNothing | main.go:149 | A header text made only of spaces adds no header |
| HeaderParsing.OneHeaderPerLine | main.go:149-158 | A text whose every line contains `:` gives one header per line: one more than there are newlines |
| HeaderParsing.TrailingNewlinePanics | main.go:149-157 | A non-blank header text that ends in a newline always panics, because its last line is empty |
| HeaderParsing.ParseSimpleLine | main.go:155-158 | `name: value` gives the header (name, value) |
| HeaderParsing.SecondColonTruncates | main.go:155-157 | In `name: value:rest`, everything after the second `:` is dropped from the value |
| HeaderParsing.ColonLine | main.go:155-157 | In `a:b` followed by nothing or by `:`, the header is `a` and `b` trimmed of spaces |
| HeaderParsing.ParseTwoLines | main.go:153-158 | Two lines that each give a header give both, in order |
| HeaderParsing.SplitTwoLines | main.go:151 | Two newline-free lines joined by a newline split back into the two lines |
| HeaderParsing.TwoHeaders | main.go:149-158 | `X: a` and `Y: b` on two lines give exactly those two headers, in file order |
| Emission.WrapInt64 | main.go:137 | No contract of its own: two's-complement wrap-around of an integer into the int64 range |
| Emission.SleepDuration | main.go:137 | No contract of its own: the delay times 10^9 nanoseconds, wrapped into int64 as Go multiplies `time.Duration` values. `SleepDurationExact` and `SleepDurationWraps` describe it |
| Emission.SleepDurationExact | main.go:137 | For delays within about 292 years, the pause is the delay times 10^9 nanoseconds |
| Emission.SleepDurationWraps | main.go:137 | Beyond that, the int64 nanosecond product wraps around: a delay of 9223372037 seconds gives a negative duration |
| Emission.ReadFile | main.go:144 | No contract of its own: `ioutil.ReadFile` against the snapshot, `None` for the empty path or a missing file. `ZeroRecordTrace` shows its effect for the zero record |
| Emission.HeaderOutcomeOf | main.go:144-149 | No contract of its own: no headers when the header file cannot be read, otherwise `ParseHeaderText` of its text. `NoHeaderFileStillResponds` describes it |
| Emission.Trace | main.go:135-182 | No contract of its own: the sleep, the added headers, then the panic if the header loop aborted, or else the status followed by the body when it was read. `TraceOrder`, `TraceStatusOnce`, `TraceHeadersInOrder` and `TraceBodyLast` describe it |
| Emission.EmitTrace | main.go:135-182 | No contract of its own: `Trace` for the outcome of the response's header file. `Emit`'s contract ties the recorder to it |
| Emission.HandleTrace | main.go:125-182 | No contract of its own: `EmitTrace` for the resolved response and the files it names. `Serve`'s contract ties the recorder to it |
| Emission.ZeroRecordTrace | main.go:128-182 | A request served the zero record sleeps for no time, writes status 0 and nothing else: its empty header and body paths cannot be read |
| Emission.TraceOrder | main.go:135-182 | The sleep comes first and only once, followed by the headers, then the status or the panic, then the body, never out of that order |
| Emission.TraceStatusOnce | main.go:144-169 | The status is written exactly once, as configured and right after the headers, unless a header line panicked; then it is never written |
| Emission.TraceHeadersInOrder | main.go:151-158 | Each parsed header is added once, in file order, between the sleep and the status |
| Emission.TraceBodyLast | main.go:144-182 | The body is written, and written last, exactly when the body file was read and no header line panicked. A panic is recorded exactly when the header loop aborted, and then last. The trace has one event per header, plus the sleep, the status or the panic, and the body if it was written |
| Emission.NoHeaderFileStillResponds | main.go:144-149 | An unreadable header file, or one made only of spaces, adds no header, and the status and body are still written |
| Emission.ResponseRecorder.constructor | main.go:71 | A fresh response writer for one request: no headers and no events yet |
| Emission.ResponseRecorder.AddHeaders | main.go:151-159 | The loop adds to the header list and to the trace exactly the headers `ParseHeaderLines` gives, and records the panic when a line has no `:` |
| Emission.ResponseRecorder.WriteHeaders | main.go:144-164 | No headers when the file is unreadable or blank; otherwise exactly what the header loop gives |
| Emission.ResponseRecorder.WriteStatusAndBody | main.go:169-182 | Appends the status write, and then the body write when the body file was read |
| Emission.ResponseRecorder.Emit | main.go:135-182 | The recorder's new events are exactly `EmitTrace` for the response and its files, and its new headers are those of the header file |
| Emission.ResponseRecorder.Serve | main.go:125-182 | Handling a request appends exactly `HandleTrace`: the resolved response's sleep, headers, status and body |

## Left out

- Logging and request tracing (main.go:73-123), and the console and log output around the handler: these have no effect on the response.
- Reading the YAML configuration (main.go:34-54), the listener set-up (main.go:56-69), and `main` with its argument parsing (main.go:188-240): the table is a parameter.
- File I/O: file contents come from a map snapshot or an `Option<string>`, so an I/O error is just `None`.
- The clock: `time.Sleep` is recorded as an event holding its duration. A negative duration returns at once.
- net/http's canonicalisation of header names in `Header().Add`, its merging of repeated headers, and its validation of status codes in `WriteHeader`. These belong to the library.
- The status-code check costs something. net/http panics in `WriteHeader` on a code outside 100-999. So the real server writes no status and no body when it serves the zero record (code 0, the case `ResolveZeroIff` describes), or any other record with a code outside that range. `HandleTrace` still shows `StatusWritten` with that code, followed by the body when its file can be read (never for the zero record, whose paths are empty, as `ZeroRecordTrace` states).
- A directory at a file path cannot be read as a file. The snapshot holds only files, so this case is not modelled.
- The recovery from the panic inside net/http is not modelled. The trace just ends at `Panicked`.
- Go strings are byte sequences decoded as UTF-8; here they are sequences of `char`. The only cutsets and separators used (`/`, ` `, `:`, `\n`) are ASCII, so splitting and trimming come out the same.
- A `\r` before each newline in header files with CRLF line endings is kept in the value, exactly as main.go does. No lemma is stated about it.
- Concurrency: every request runs on its own goroutine, and each request is modelled on its own.
- GoStrings.TrimLeft, GoStrings.TrimRight: their own contracts state only the length bound. Their shape is stated by the separate lemmas TrimLeftShape and TrimRightShape.
