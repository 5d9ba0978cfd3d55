# DockMan handlers in Dafny

This project models the decision logic of DockMan's HTTP and WebSocket
handlers. DockMan is a web dashboard that manages Docker containers, images
and "services": containers or docker-compose projects that it keeps in a
catalog database. Everything the handlers ask of the outside world is a
parameter of the model:

- the Docker runtime's answers;
- the catalog's INSERT and DELETE outcomes;
- the compose file as parsed;
- the docker-compose run result;
- the client's messages.

The model is split into these modules:

- `LogStream` covers the log tail (`StreamLogs`). The runtime multiplexes
  stdout and stderr into frames `[stream type][3 reserved][length, big-endian
  u32][payload]`. The handler forwards each non-empty payload as one message.
  - `Demux` is the reference decoder, a pure function.
  - `PumpFrames` is the handler's loop. It is proved equal to `Demux`, cut
    short at the first failed write.
  - Round-trip and truncation lemmas tie `Demux` to an encoder of frames.
- `Terminal` covers the interactive shell (`InteractiveTerminal`).
  - Setup is a chain of remote calls: inspect, running check, exec create,
    attach. Each failure sends exactly one message and makes no later call.
  - The inbound relay is proved against a reference.
  - The outbound relay, which sends shell output in reads of at most 4096
    bytes, is proved against a reference chunking.
- `Catalog` models the service table. It is a sequence of rows plus the
  next key the store assigns, with DELETE, INSERT and lookup.
- `ServiceHandlers` models four handlers:
  - `CreateService`, a validator keyed on the service type. The environment
    comes from the URL, read with Go's `strconv.Atoi` and its error
    discarded.
  - The compose refresh, which replaces a compose service's children with one
    record per compose entry.
  - `GetServiceDetails`.
  - The up/down dispatch with its docker-compose argument vectors.
- `DockerHandlers` models start, stop and restart, the protected-image guard
  of `DeleteImage`, and the order of `DeleteContainer`.
- Support modules:
  - `Bytes`: big-endian u32.
  - `Strconv`: Go's `Atoi` and `uint` conversion on a 64-bit platform.
  - `GoStrings`: `strings.Contains`.
  - `Seqs`, `Wrappers`, `Http`: shared helpers.

How failures are modelled:

- A failing write is `failingWrite: Option<nat>`, the index of the first
  write that fails. Later writes never happen.
- The runtime-facing handlers (the log tail, terminal setup, and the
  container and image handlers) return the runtime calls they made, with
  their arguments, so "X is never called" is stated directly. The catalog
  handlers return the table as it stands afterwards.

Two behaviours of the code are worth stating outright:

- **Mid-header end of stream.** A log stream that ends part-way through a
  frame header closes cleanly (`Closed`), not with a framing error: the
  header read treats `io.ErrUnexpectedEOF` like `io.EOF`.
- **No `/bin/bash` fallback.** The terminal runs `/bin/sh` only; no other
  shell is ever tried.

## Model

| member | source | states |
|---|---|---|
| Bytes.Uint32BE | apps/api/internal/handlers/websocket.go:224 | a length field read from four bytes is below 2^32 |
| Bytes.DecodeEncode | apps/api/internal/handlers/websocket.go:224 | writing a length big-endian and reading it back gives the length |
| Bytes.EncodeDecode | apps/api/internal/handlers/websocket.go:224 | reading four bytes and writing the value back gives the same bytes |
| LogStream.ReadFull | apps/api/internal/handlers/websocket.go:214-215 | io.ReadFull returns exactly the next n bytes of the stream when n remain. Otherwise it returns EOF if none remain on a cleanly closed stream, ErrUnexpectedEOF if some but not all remain, and the underlying error on a broken stream |
| LogStream.Demux | apps/api/internal/handlers/websocket.go:212-240 | the reference decoder never reports a write failure: only the handler's own writes can fail |
| LogStream.DemuxPayloadSizes | apps/api/internal/handlers/websocket.go:224-236 | every payload the decoder emits is non-empty and shorter than 2^32 bytes, since zero-length frames are skipped and the length field is a u32 |
| LogStream.NextFrameAgrees | apps/api/internal/handlers/websocket.go:213-234 | one pass of the handler's loop (read header, skip or read payload) agrees with the reference decoding of the remaining bytes and advances |
| LogStream.PumpFrames | apps/api/internal/handlers/websocket.go:212-240 | the messages sent are the reference decoding's payloads, in order, and the loop stops for the reason the decoding gives. If the k-th write fails, exactly the first k payloads were sent and nothing after |
| LogStream.StreamLogs | apps/api/internal/handlers/websocket.go:195-240 | the one runtime call is ContainerLogs for the container, with stdout and stderr, follow on and a tail of "100". When the runtime refuses the log stream, exactly "Error: Could not retrieve logs for container." is sent. Otherwise the client sees PumpFrames' messages, and a write failure is reported iff a write failed before the payloads ran out |
| LogStream.EncodedLength | apps/api/internal/handlers/websocket.go:224 | the declared length of an encoded frame is its payload length, whatever follows |
| LogStream.PrefixIgnored | apps/api/internal/handlers/websocket.go:214-224 | header bytes 0..3 (stream type and reserved bytes) never change what is decoded |
| LogStream.EmptyFrameSkipped | apps/api/internal/handlers/websocket.go:225-227 | a zero-length frame emits nothing and decoding continues with the next header |
| LogStream.FrameEmitted | apps/api/internal/handlers/websocket.go:229-236 | a non-empty frame emits its payload as one message, then decoding continues after it |
| LogStream.DemuxEncoded | apps/api/internal/handlers/websocket.go:212-240 | encoded frames followed by any bytes decode to the frames' non-empty payloads, in order, then whatever the remainder decodes to |
| LogStream.RoundTrip | apps/api/internal/handlers/websocket.go:212-240 | decoding the encoding of any valid frames gives exactly their non-empty payloads, in order, and ends as closed |
| LogStream.EmittedAll | apps/api/internal/handlers/websocket.go:225-236 | when no frame is empty, there is exactly one message per frame, the i-th being the i-th payload |
| LogStream.TruncatedHeader | apps/api/internal/handlers/websocket.go:214-222 | input ending at a frame boundary or inside a header ends as closed, with every earlier payload emitted and nothing from the partial header |
| LogStream.TruncatedPayload | apps/api/internal/handlers/websocket.go:229-234 | input ending inside a payload ends with a payload error. Every earlier payload is emitted; the partial payload is not |
| Terminal.OpenTerminal | apps/api/internal/handlers/websocket.go:90-124 | setup attaches iff the container is running, the exec is created and the attach succeeds. Each failure sends its exact message. Exec create is called iff the container runs, with /bin/sh, a TTY and all three streams attached. Attach is called iff the create succeeded, with a TTY |
| Terminal.RelayInbound | apps/api/internal/handlers/websocket.go:136-152 | stdin receives the text-message bodies, in order, up to the first read error. If the k-th stdin write fails, exactly the first k bodies were written. The relay reports a client error iff a read failed |
| Terminal.TextBodiesAppend | apps/api/internal/handlers/websocket.go:136-152 | messages after a read error contribute nothing. Before one, the bodies of two runs of messages concatenate |
| Terminal.BinaryIgnored | apps/api/internal/handlers/websocket.go:145-151 | a non-text message anywhere changes nothing that reaches stdin |
| Terminal.StopsAtReadError | apps/api/internal/handlers/websocket.go:137-143 | nothing after the first read error reaches stdin |
| Terminal.Split | apps/api/internal/handlers/websocket.go:161-177 | the reads of one burst of output reassemble to the burst, each non-empty and at most 4096 bytes |
| Terminal.Chunks | apps/api/internal/handlers/websocket.go:161-177 | the messages the whole output becomes reassemble to the output, each non-empty and at most 4096 bytes |
| Terminal.Take | apps/api/internal/handlers/websocket.go:161-163 | one Read into the 4096-byte buffer takes min(pending, 4096) bytes and leaves the rest, losing nothing |
| Terminal.NextReadAgrees | apps/api/internal/handlers/websocket.go:162-177 | one Read agrees with the reference chunking of the remaining output and makes progress |
| Terminal.RelayOutbound | apps/api/internal/handlers/websocket.go:161-178 | the messages sent are the reference chunking, in order, with every non-empty read sent as one message of at most 4096 bytes. If the k-th send fails, exactly the first k were sent. Otherwise the relay ends as the shell's output does, and the messages are the same whatever bytes the final, erroring Read returned: those bytes are never sent |
| GoStrings.ContainsIffOccurs | apps/api/internal/handlers/docker.go:114 | strings.Contains is true exactly when the needle occurs at some offset |
| Strconv.ScanDigits | apps/api/internal/handlers/services.go:59 | ParseUint's digit loop gives a value in the uint64 range, 0 on a syntax error and the maximum on a range error |
| Strconv.Atoi | apps/api/internal/handlers/services.go:59 | Atoi's value is always in the int64 range. It is 0 on a syntax error and clamped to the int64 bound on a range error |
| Strconv.UintOf | apps/api/internal/handlers/services.go:60 | uint(v) is below 2^64 and congruent to v modulo 2^64 |
| Strconv.AtoiDecimal | apps/api/internal/handlers/services.go:59 | every int64 value is read back from its decimal numeral without error |
| Strconv.AtoiNegative | apps/api/internal/handlers/services.go:59 | every negative int64 value is read back from "-" and its magnitude's numeral |
| Strconv.AtoiClamps | apps/api/internal/handlers/services.go:59 | a numeral above the int64 range reads as the largest int64, with a range error |
| Strconv.ScanStops | apps/api/internal/handlers/services.go:59 | ParseUint's loop reports a syntax error with value 0 at the first non-digit reached before the accumulator overflows, whatever follows it |
| Strconv.ScanOverflows | apps/api/internal/handlers/services.go:59 | ParseUint's loop reports a range error at the first digit that overflows 64 bits, whatever follows it, non-digits included |
| Strconv.AtoiStopsAtNonDigit | apps/api/internal/handlers/services.go:59 | Atoi of a sign, digits that fit in 64 bits, a non-digit and anything else is a syntax error with value 0 |
| Strconv.AtoiOverflowsFirst | apps/api/internal/handlers/services.go:59 | Atoi of a sign and digits overflowing 64 bits, then anything, is a range error clamped to the int64 bound on the sign's side |
| Strconv.AtoiNonNumeral | apps/api/internal/handlers/services.go:59 | an input that is not an optionally signed run of digits (up to 19 characters after the sign) is a syntax error with value 0 |
| Catalog.Matching | apps/api/internal/handlers/services.go:36 | a WHERE selection keeps exactly the rows it matches |
| Catalog.Unmatched | apps/api/internal/handlers/services.go:145 | what a DELETE leaves is exactly the rows it does not match |
| Catalog.Find | apps/api/internal/handlers/services.go:36 | a lookup by key returns a stored row with that key, or nothing when no row has it |
| Catalog.Delete | apps/api/internal/handlers/services.go:145 | after DELETE ... WHERE, a row is stored iff it was stored before and does not match. The key counter is unchanged |
| Catalog.Insert | apps/api/internal/handlers/services.go:78 | an INSERT appends the record under the next key, keeps every earlier row, and keeps keys unique and below the counter |
| Catalog.InsertAllAppends | apps/api/internal/handlers/services.go:147-156 | inserting records one by one appends them in order, keyed consecutively from the counter |
| Catalog.MatchingUnmatched | apps/api/internal/handlers/services.go:145 | after a DELETE with a condition, no row matches that condition |
| Catalog.ReplaceMatching | apps/api/internal/handlers/services.go:145-156 | deleting the rows a condition matches and then inserting records that all match it leaves exactly the inserted records, keyed from the counter, matching the condition |
| Catalog.DeleteWellKeyed | apps/api/internal/handlers/services.go:145 | a DELETE keeps keys unique and below the counter |
| ServiceHandlers.EnvironmentOf | apps/api/internal/handlers/services.go:59-60 | the environment ID taken from the URL fits in a uint64 |
| ServiceHandlers.Rejection | apps/api/internal/handlers/services.go:62-76 | a record is rejected iff it is neither a container with an image nor a compose service with a compose path, and only with one of the three validation messages |
| ServiceHandlers.CreateService | apps/api/internal/handlers/services.go:51-84 | the reply is 200 iff the body binds, the type's required field is present and the INSERT succeeds. Then the catalog gains exactly that record, under the URL's environment and the next key, and the reply is the stored record. Otherwise nothing is stored and the reply carries the binder's message, "Image is required for container type", "ComposePath is required for compose type", "Invalid service type" (400) or "Failed to create service" (500) |
| ServiceHandlers.PathDecidesEnvironment | apps/api/internal/handlers/services.go:59-60 | whatever environment the body names, the result is the same: the URL's environment overrides it |
| ServiceHandlers.EnvironmentOfDecimal | apps/api/internal/handlers/services.go:59-60 | a decimal environment parameter within the int64 range is the environment ID |
| ServiceHandlers.EnvironmentOfNegative | apps/api/internal/handlers/services.go:59-60 | a negative environment parameter -n files the service under 2^64 - n |
| ServiceHandlers.EnvironmentOfNonNumeral | apps/api/internal/handlers/services.go:59-60 | an unparsable environment parameter of at most 19 characters after the sign files the service under environment 0 |
| ServiceHandlers.EnvironmentOfSyntaxError | apps/api/internal/handlers/services.go:59-60 | a parameter of any length with a non-digit after the sign, reached while the digits before it still fit in 64 bits, files the service under environment 0 |
| ServiceHandlers.EnvironmentOfOverflow | apps/api/internal/handlers/services.go:59-60 | a parameter whose digits overflow 64 bits before any non-digit files the service under 2^63 - 1, or under 2^63 after a minus sign, whatever follows |
| ServiceHandlers.Refresh | apps/api/internal/handlers/services.go:134-143 | an unreadable or unparsable compose file leaves the catalog unchanged |
| ServiceHandlers.RefreshWellKeyed | apps/api/internal/handlers/services.go:145-156 | a refresh keeps keys unique and below the counter |
| ServiceHandlers.EnumerationSize | apps/api/internal/handlers/services.go:147 | ranging over the compose map visits as many entries as the map has keys |
| ServiceHandlers.RefreshedChildren | apps/api/internal/handlers/services.go:145-156 | after a refresh the parent's children are exactly the newly created records, keyed from the counter on |
| ServiceHandlers.RefreshReplacesChildren | apps/api/internal/handlers/services.go:145-156 | after a refresh from a parsed file there are exactly as many children as compose entries, and one per entry name. Each child is of container type, has the entry's image, the parent's ID and environment, and a fresh key, so every old child is gone |
| ServiceHandlers.RefreshKeepsOthers | apps/api/internal/handlers/services.go:145 | a refresh adds or removes no row outside the parent's children |
| ServiceHandlers.GetServiceDetails | apps/api/internal/handlers/services.go:33-48 | an unknown key answers 404 "Service not found" with the catalog unchanged. Only a compose service is refreshed. After a refresh the service is reloaded: when the reload finds it, the reply is the reloaded row with its children as stored after the refresh; when it does not, the reload's error is ignored and the reply is the service and children loaded before the refresh |
| ServiceHandlers.DetailsShowFreshChildren | apps/api/internal/handlers/services.go:36-47 | for a compose service that is not its own parent and whose file parses, the reply is the service with exactly the sub-services created from the file, one per entry in visiting order, keyed from the counter on, and no earlier child |
| ServiceHandlers.SelfParentDetailsStale | apps/api/internal/handlers/services.go:36-47 | a compose service that is its own parent is deleted by its own refresh's DELETE; the reload then finds nothing, and the reply is the service with the children loaded before the refresh, itself among them |
| ServiceHandlers.Lifecycle | apps/api/internal/handlers/services.go:87-132 | a command runs iff the service exists and is a compose service: ["docker-compose","-f",path,"up","-d"] (up) or [...,"down"] (down), in the path's directory. A missing service answers 404. A container answers 501 "not implemented". A compose service answers 200 with the output or 500 "Failed to run docker-compose up/down" with the output. Any other type gets no reply |
| DockerHandlers.StartContainer | apps/api/internal/handlers/docker.go:58-73 | exactly one start call is made. The reply is 200 iff there is no error or the error carries 304, with "started" exactly when there is no error and "already running" exactly for 304. Any other error answers 500 with its message |
| DockerHandlers.StopContainer | apps/api/internal/handlers/docker.go:76-84 | exactly one stop call is made, with a 10-second timeout. It answers 200 "stopped", or 500 with the error's message |
| DockerHandlers.RestartContainer | apps/api/internal/handlers/docker.go:151-159 | exactly one restart call is made, with a 10-second timeout. It answers 200 "restarted", or 500 with the error's message |
| DockerHandlers.MarkerAnywhereProtects | apps/api/internal/handlers/docker.go:113-114 | a tag containing "dockman" anywhere, even inside a longer word, protects the image |
| DockerHandlers.NoLowercaseDUnprotected | apps/api/internal/handlers/docker.go:113-114 | the guard is case-sensitive: no tag without a lower-case "d" (such as "DockMan" or "DOCKMAN") protects an image |
| DockerHandlers.DeleteImage | apps/api/internal/handlers/docker.go:106-125 | an inspect failure answers 500 "Failed to inspect image" and nothing is removed. If any tag contains "dockman", the answer is 403 with the protection message and ImageRemove is never called. Otherwise ImageRemove is called exactly once with force off, answering 200 "deleted" or 500 "Failed to remove image" |
| DockerHandlers.DeleteContainer | apps/api/internal/handlers/docker.go:138-148 | the runtime removal (forced) comes first. If it fails, the answer is 500 and the catalog is untouched. If it succeeds, the answer is 200 "deleted" whether or not the catalog delete succeeds, and a successful delete removes exactly the services with that container ID |

## Left out

- ListContainers, ListImages, PullImage and ListServices (docker.go, services.go) pass the runtime's or the catalog's answer straight through, with no decision logic to model.
- The container stats stream (websocket.go:44-74) computes float64 percentages; floating point is not modelled.
- The concurrent race of the two terminal relays, the `done` channel and the teardown when the first one finishes (websocket.go:127-183) are not modelled. Each relay is a sequential function of its inputs, and an input that simply runs out stands for a read that is still blocked.
- The WebSocket upgrade, logging, gin routing, CORS and process start-up are transport plumbing and not modelled.
- Reading and parsing the compose file (ioutil.ReadFile, yaml.Unmarshal) is a `ComposeFile` parameter. `filepath.Dir` is a `dirOf` parameter. Running docker-compose is an `Outcome` parameter. Go's random map iteration order is an `order` parameter listing each key once.
- The catalog's soft deletion (gorm.Model's DeletedAt) is modelled as removing the row from what queries see. The timestamps are not modelled.
- A service is looked up by its numeric key. How GORM interprets a non-numeric `id` path segment is not modelled.
- CreateService always stores the record under the next key. GORM's honouring of a non-zero ID in the request body, and its saving of sub_services nested in the body, are not modelled. The git fields of the record are not modelled.
- Refresh: errors of the refresh's DELETE and INSERTs, and of the reload, are ignored by the source. The model treats these statements as succeeding.
- Strconv.AtoiNonNumeral: stated only for inputs of at most 19 characters after the sign, where no overflow can come before the first non-digit. Longer inputs are covered exactly by AtoiStopsAtNonDigit (syntax error) and AtoiOverflowsFirst (range error).
- ServiceHandlers.EnvironmentOfNonNumeral: the same 19-character bound. Longer parameters are covered by EnvironmentOfSyntaxError (environment 0) and EnvironmentOfOverflow (2^63 - 1 or 2^63).
- Terminal.RelayInbound: a Conn.Write that fails is modelled as delivering nothing of its body. A failing write may in fact have delivered part of it to the shell's stdin.
- The log-stream decoder assumes the container was created without a TTY, as its multiplexed framing requires. What it makes of a raw TTY stream is not stated.
- UTF-8: Go's Contains and Atoi work on bytes and the model on characters. The two agree for the ASCII needle and the digits involved.
