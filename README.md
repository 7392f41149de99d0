# table-procexec: a verified model of the bridge's protocol engine

`table-procexec` is an OpenSMTPD table backend. It does not answer lookups
itself. It forks a child program and speaks a line-oriented protocol with it
over a socket. The bridge writes a configuration block. The child registers
the lookup services it supports (`register|alias`, ..., `register|ready`).
After that, each table operation the host asks for becomes one request line:
`table|0.1|<sec>.<usec>|<table>|<op>|<service>|<id>[|<key>]`, or
`table|0.1|<sec>.<usec>|<table>|update|<id>` for update. The bridge then reads
one reply line, `<op>-result|<id>|<payload>`, and decodes the payload into
the -1 / 0 / 1 the table API expects. Lookup and fetch also copy a value
into the caller's buffer.

The project models that engine:

- `ctext.dfy` (module `CText`): C strings (`CString`, text cut at the first
  NUL), getline's newline stripping, fields split and joined by a delimiter,
  and `strlcpy`'s bounded copy.
- `numerals.dfy` (module `Numerals`): the numbers printf writes. `%llx` is
  used for the id, `%lld` and `%06ld` for the timestamp. Readers of those
  numbers and their round trips are included.
- `services.dfy` (module `Services`): the nine services and `service_name`.
- `wire.dfy` (module `Wire`): request lines and their reader, the id,
  reply lines and `parse_reply`'s matcher.
- `registration.dfy` (module `Registration`): the registration loop of
  `main` as a function over the child's lines, and its closed form.
- `operations.dfy` (module `Operations`): the payload decoding of the four
  handlers, and the answer the table API receives.
- `engine.dfy` (module `Engine`): the bridge's global state as a class
  `Bridge`. Its fields are the service mask, the id buffer, getline's
  buffer, the output stream and the pending input lines. Its methods are
  `nextid`, `send_request`, `parse_reply`, the handshake in `main` and the
  four handlers. Each method is proved against the functions above.

Wherever the source calls `fatal`/`fatalx`, the model returns a failure
value: `Handshake.Failed` during registration, `Answer.Fatal` in an
operation. The state left behind after such a failure is not specified, since
the process exits.

## Model

| member | source | states |
|---|---|---|
| CText.Strlcpy | extras/tables/table-procexec/table-procexec.c:188 | strlcpy into a buffer of size sz: the buffer's length is kept; when sz > 0 the C string left in it is the source if it fits, otherwise its first sz-1 bytes; bytes past the terminator are untouched |
| CText.SplitJoin | extras/tables/table-procexec/table-procexec.c:79-92 | splitting the `\|`-joined fields of a request gives the fields back when none holds a `\|` |
| Numerals.NumeralRoundTrip | extras/tables/table-procexec/table-procexec.c:48 | the digits printf writes for an unsigned number are digits of the base and read back as that number |
| Numerals.DecimalRoundTrip | extras/tables/table-procexec/table-procexec.c:79-81 | `%lld` of the seconds reads back as the same signed number and holds no character but digits and `-` |
| Numerals.MicrosecondsWidth | extras/tables/table-procexec/table-procexec.c:79-81 | `%06ld` of a microsecond count below one second is exactly six characters |
| Services.ServiceName | extras/tables/table-procexec/table-procexec.c:55-71 | every service has a wire name, which holds neither NUL nor `\|` and is never `ready` |
| Services.ServiceOf | extras/tables/table-procexec/table-procexec.c:315-336 | the name comparison chain of the registration loop is the inverse of service_name: it returns k exactly when the name is service_name(k), and no service for any other name |
| Wire.IdOf | extras/tables/table-procexec/table-procexec.c:43-53 | the id is the random value's lower-case hex digits, which read back as the value, one to eight characters, so the 64-byte buffer never truncates it and the snprintf check never fires |
| Wire.StampRoundTrip | extras/tables/table-procexec/table-procexec.c:79-81 | the `<sec>.<usec>` field reads back as the time written and holds no `\|` |
| Wire.RequestRoundTrip | extras/tables/table-procexec/table-procexec.c:73-95 | the request line, for the service -1 form and for the service form with or without a key, is a single line ended by its only newline and parses back to the same table, operation, service, id, key and time, as long as no free-text field (table, id, key) holds the field delimiter `\|` or the line terminator `\n` |
| Wire.KeyWithDelimiterUnreadable | extras/tables/table-procexec/table-procexec.c:86-87 | a key holding `\|` is written unescaped, so the line has more than eight fields and the model's reader `ParseRequest` rejects it; that reader takes the grammar as a fixed number of `\|`-separated fields (a reader that took everything after the seventh `\|` as the key would read such a line back) |
| Wire.NewlineSplitsRequest | extras/tables/table-procexec/table-procexec.c:79-90 | a table name or key holding a newline is written unescaped, so a child reading by lines gets the request in two pieces; the line reader `ParseRequest` rejects it |
| Wire.ReplyShape | extras/tables/table-procexec/table-procexec.c:97-126 | parse_reply's matcher accepts a line if and only if it is `<type>\|<id>\|<payload>` for the expected type and id; a line lacking the type, the first `\|`, the id or the second `\|` is rejected |
| Wire.ReplyRoundTrip | extras/tables/table-procexec/table-procexec.c:97-126 | the reply to the outstanding request, with or without its newline, yields exactly its payload |
| Wire.StaleReplyRejected | extras/tables/table-procexec/table-procexec.c:114-122 | a reply carrying any other id is rejected |
| Wire.OtherTypeRejected | extras/tables/table-procexec/table-procexec.c:106-112 | a reply whose type is not the expected one is rejected |
| Registration.FirstStop | extras/tables/table-procexec/table-procexec.c:307-337 | the first line that is not a service registration: every line before it registers a service, it does not |
| Registration.NegotiateSkips | extras/tables/table-procexec/table-procexec.c:307-337 | a run of registrations only ORs its services into the mask and moves past them |
| Registration.HandshakeOutcome | extras/tables/table-procexec/table-procexec.c:307-343 | the whole loop in closed form: the mask is the set of services named before the first line that is not a registration; that line decides the outcome (a line without `register\|` or an unknown name is fatal, `ready` stops), then a read error and then an empty mask are fatal |
| Registration.ConsumedLines | extras/tables/table-procexec/table-procexec.c:307-316 | on success every line consumed but the last registers a service, and the last is `register\|ready` unless the input ran out: no line after `register\|ready` is read |
| Registration.RegisterLineKind | extras/tables/table-procexec/table-procexec.c:311-334 | the line `register\|<service_name(k)>` registers exactly k |
| Registration.RegisterThenReady | extras/tables/table-procexec/table-procexec.c:307-343 | registering any list of services and then `ready` leaves exactly the set of those services, consumes one line more than the list, reads nothing after it, and is fatal when the list is empty |
| Registration.RegisterThenEnd | extras/tables/table-procexec/table-procexec.c:307-343 | registrations followed by a clean end of input are accepted with those services; a read error or an empty list is fatal |
| Registration.RepeatedAnnouncement | extras/tables/table-procexec/table-procexec.c:317-334 | registering a service a second time in a row leaves the outcome and the mask unchanged; only the count of lines consumed grows |
| Registration.RepeatedRegistration | extras/tables/table-procexec/table-procexec.c:317-334 | on the child's raw lines, a registration line sent twice in a row leaves the outcome and the mask unchanged, and consumes exactly one line more when the duplicate is read before the loop stops |
| Registration.ConfigWriteFailure | extras/tables/table-procexec/table-procexec.c:302-343 | after a failed write of the configuration block the handshake never succeeds: it dies at the ferror test exactly when the loop ends at `register\|ready` or at the end of input, and otherwise on the invalid line or unknown name; a successful write leaves the registration outcome as it is |
| Registration.ReadyAfterFailedConfig | extras/tables/table-procexec/table-procexec.c:302-339 | `register\|alias` then `register\|ready` registers alias, yet after a failed flush of the configuration block the bridge dies at the ferror test |
| Operations.DecodeUpdate | extras/tables/table-procexec/table-procexec.c:139-145 | update returns 1 exactly for `ok` and 0 otherwise; it warns exactly for a payload that is neither `ok` nor `error`, and is never fatal |
| Operations.DecodeCheck | extras/tables/table-procexec/table-procexec.c:162-168 | check returns 1 exactly for `found` and -1 otherwise; it warns exactly for a payload that is neither `found` nor `error`, and is never fatal |
| Operations.DecodeLookup | extras/tables/table-procexec/table-procexec.c:186-201 | lookup copies exactly when the payload starts with `found\|`, and copies what follows it; `not-found` gives 0, anything else -1 with a warning unless `error`; never fatal |
| Operations.DecodeFetch | extras/tables/table-procexec/table-procexec.c:217-229 | fetch gives 0 for `not-found` and -1 for `error`, silently; otherwise it copies what follows `found\|`, and a payload without that prefix is fatal |
| Operations.Respond | extras/tables/table-procexec/table-procexec.c:133-137 | a failed flush, a failed read and a reply parse_reply rejects are fatal; otherwise the payload is decoded |
| Operations.Finish | extras/tables/table-procexec/table-procexec.c:188-192 | a copied value that does not fit the buffer (strlcpy's result >= sz) gives -1, with a warning for lookup only; one that fits gives 1 |
| Operations.CopyOutcome | extras/tables/table-procexec/table-procexec.c:188-192 | success is reported exactly when the value fits, and the buffer then holds the value; a value too large leaves its longest prefix that fits |
| Operations.DecodeVerdict | extras/tables/table-procexec/table-procexec.c:139-229 | every payload the protocol defines for an operation (`ok`, `found`, `found\|<value>`, `not-found`, `error`) decodes to its meaning (success, explicit absence or failure, the value copied) without a warning |
| Operations.Exchange | extras/tables/table-procexec/table-procexec.c:97-229 | a child answering the request just sent gets exactly the meaning of its answer through; lines after the reply are left unread |
| Operations.LookupFound | extras/tables/table-procexec/table-procexec.c:183-192 | `lookup-result\|<id>\|found\|<value>` with a large enough buffer reports 1 and leaves the value in the buffer |
| Operations.StaleReplyFatal | extras/tables/table-procexec/table-procexec.c:136-137 | a reply carrying another request's id is fatal for every operation |
| Operations.OtherReplyFatal | extras/tables/table-procexec/table-procexec.c:159-160 | a reply to another operation is fatal |
| Operations.DecodeFetchAsWritten | extras/tables/table-procexec/table-procexec.c:222-229 | fetch as written: on a `found\|` payload it copies the uninitialised `k`, whatever the payload holds; on every other payload it does what the corrected fetch does |
| Operations.FetchCopiesGarbage | extras/tables/table-procexec/table-procexec.c:226 | as written, fetch never delivers a found value unless the garbage happens to equal it; with `k` at an empty string, `found\|bob` reports success with an empty result |
| Engine.CopyOut | extras/tables/table-procexec/table-procexec.c:188 | strlcpy on the caller's array: the array becomes Strlcpy of its old contents, and the source length is returned |
| Engine.Bridge.ReadLine | extras/tables/table-procexec/table-procexec.c:103-106 | getline takes the next pending line, drops one trailing newline, and reports end of input when none is left |
| Engine.Bridge.NextId | extras/tables/table-procexec/table-procexec.c:43-53 | the id buffer holds the hex id of the random value, shorter than 64 bytes |
| Engine.Bridge.SendRequest | extras/tables/table-procexec/table-procexec.c:73-95 | exactly one request line is appended to the stream, with a fresh id stored in the id buffer; the result is the flush's |
| Engine.Bridge.ParseReply | extras/tables/table-procexec/table-procexec.c:97-126 | walking the pointer past type, `\|`, id and `\|` gives the matcher's result on the next line, which is consumed and left in getline's buffer without its newline |
| Engine.Bridge.Start | extras/tables/table-procexec/table-procexec.c:302-343 | writes the configuration block, then runs the registration loop: the outcome is `Startup`'s, including the stream error a failed write of the block causes after either exit of the loop, the mask is its set of services, and exactly the consumed lines are gone from the input |
| Engine.Bridge.OnUpdate | extras/tables/table-procexec/table-procexec.c:128-146 | sends an update request without a service and answers as the decoding of the reply says |
| Engine.Bridge.OnCheck | extras/tables/table-procexec/table-procexec.c:148-169 | an unregistered service gives -1 and changes nothing; otherwise one check request goes out and the answer is the decoding of the reply |
| Engine.Bridge.OnLookup | extras/tables/table-procexec/table-procexec.c:171-202 | an unregistered service gives -1 and writes nothing; otherwise one lookup request goes out, the answer is the decoding of the reply, and the buffer is strlcpy'd exactly when the reply carries a value |
| Engine.Bridge.OnFetch | extras/tables/table-procexec/table-procexec.c:204-230 | the same for fetch, with the value taken from the reply (see Findings) |

## Left out

- spawn_backend, socketpair, fork/exec, fdopen, kill, usage and getopt are left out: they are process set-up, not protocol.
- The `#if 0` and `#if notyet` blocks are left out: they are not compiled.
- Registering the handlers with the table API and its dispatch loop are left out: the host calls `OnUpdate` ... `OnFetch` directly.
- Log messages are not modelled. Only whether a handler logs a warning is recorded (`warned`, `warnIfTooLarge`).
- gettimeofday and arc4random become the parameters `now` and `rand`.
- A failing fflush in `send_request` becomes the parameter `flushed`. Whether the input ends in a failed getline rather than a clean end of file becomes the constant `readError`.
- Whether the fprintf and fflush calls that write the configuration block succeed becomes the parameter `configWritten` of `Start`. Their return values are ignored, but a failure sets the stream's error indicator, which the ferror test after the registration loop reports.
- The fprintf calls inside `send_request` are not modelled separately: a failed write there is taken to show up as a failed flush.
- A getline that fails in the middle of the handshake counts as the end of input, together with `readError`.
- The numeric values of `K_*` are left out. The mask is a set of the nine kinds. A `service` argument that is not a single known bit cannot be expressed, so service_name's `fatalx("unknown service")` cannot occur.
- The table name, keys and the id are C strings (no NUL inside). A raw reply or registration line may hold NULs, and comparisons stop at them as in C.
- A Dafny `char` stands for one byte of a C string. `strlcpy`'s size `sz` and its return value count bytes, and `Finish` (`|v| < sz`) and `CText.Strlcpy` are right only under that reading.
- The destination size `sz` is taken to be the length of the caller's array.
- The `usec` field is a natural number. gettimeofday keeps it below 1000000, which is where `MicrosecondsWidth` gives exactly six digits.
- Engine.Bridge.OnUpdate, OnCheck, OnLookup, OnFetch, Start: after a fatal result, only the result itself is specified, since the process exits there.
- Engine.Bridge.Start, OnUpdate, OnCheck, OnLookup, OnFetch: what getline's buffer `line` holds afterwards is not stated. It is scratch space that only the log messages read; `ReadLine` and `ParseReply` state it.
- In two places the code does not do what the protocol intends, and the model follows the code:
  - The protocol says a child must end registration with `register|ready`, and that the bridge should treat an end of input before it as fatal. The code accepts a clean end of input before `register|ready` as long as at least one service is registered (`RegisterThenEnd`).
  - The protocol intends a request for a service the child did not register to give a result that differs from "not found". The code answers -1. For lookup and fetch that already differs from their `not-found` answer, 0. For check it does not: check answers -1 for `not-found` and for anything other than `found`, so an unregistered service and a missing key look the same there.

## Findings

| source | as written | input that shows it | evidently intended | confidence | as-written member | corrected member |
|---|---|---|---|---|---|---|
| extras/tables/table-procexec/table-procexec.c:226 | fetch copies from `k`, a pointer that is never assigned, instead of from `r` advanced past `found\|` | the reply `fetch-result\|<id>\|found\|bob` with `k` pointing at an empty string: fetch reports 1 and returns an empty value instead of `bob` | copy the value after `found\|` into `dst` | not executed | Operations.FetchCopiesGarbage | Operations.DecodeFetch |
