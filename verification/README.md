# wsc — a Dafny model of the WebSocket probe's header handling and send order

`wsc` is a small interactive WebSocket client. It connects to one endpoint and
sends one optional initial command (`-c`), then one text frame per line of
standard input. It prints every inbound frame through a JSON pretty-printer.
Extra handshake headers come from the repeatable `-H "Name: Value"` flag.

This project models the parts of `main.go` whose behaviour can be stated
without the network, the terminal or third-party libraries:

- **`-H` accumulation** (`headers.Set`, `headers.String`), module `HeaderFlag`.
- **`makeHeader`**, module `Header`. Each value is split at its first colon and
  both halves are trimmed. The pairs are added in order to a multimap from
  canonical name to a list of values.
- **Go string helpers** that `makeHeader` and `String` rely on, module `Text`:
  `strings.TrimSpace` with `unicode.IsSpace`, `strings.SplitN(s, ":", 2)` and
  `strings.Join`.
- **Start-up decisions in `main`**, module `Startup`. An empty target is
  refused. An empty origin is never parsed. An origin that does not parse is
  refused. The header is built only after both checks pass.
- **Outbound order**, module `Writer`. The `-c` command is written first and
  only when it is non-empty. Then every input line is written verbatim. Each
  frame is echoed as `>> line` right after it is written.
- **Inbound loop**, module `Reader`. One 16 KiB buffer is reused. Each read
  prints exactly the bytes that read stored. The first read error ends the loop.

Strings are sequences of runes (`char`), and bytes are the `Base.byte` newtype.
Go's panic on an entry without a colon is modelled as
`Err(MissingColon(index, entry))` for the first such entry. In Go, the
`splits[1]` index fails there. Other library behaviour enters as parameters:

- `url.Parse` success is the predicate `parses`.
- `http.Header`'s name canonicalisation is the function `canon`.
- `pretty.Pretty` and `pretty.Color` are the functions `pretty` and `color`.
- What the connection delivers is the sequence of read results `received`.

## Model

| member | source | states |
|---|---|---|
| `HeaderFlag.Set` | main.go:24-27 | the value is appended at the end; every earlier entry is unchanged; the returned error is always nil |
| `HeaderFlag.SetAllAppends` | main.go:24-27 | calling `Set` once per `-H` occurrence leaves exactly the given values after the existing ones, in order, duplicates included |
| `HeaderFlag.String` | main.go:20-22 | no contract of its own: the rendering is characterised by `StringAfterSet` and `StringSplits` |
| `HeaderFlag.StringAfterSet` | main.go:20-22 | after a `Set`, the rendered list is the old rendering, then `", "`, then the new value (just the value when the list was empty) |
| `HeaderFlag.StringSplits` | main.go:20-22 | a non-empty list's rendering cuts back into exactly the entries at `", "`, provided no entry contains `", "` itself (an empty list renders as `""`, which splits into one empty entry) |
| `Text.Join` | main.go:21 | no contract of its own: `strings.Join` is characterised by `JoinSnoc` and by its inverse `SplitJoin` |
| `Text.JoinSnoc` | main.go:21 | `strings.Join` of a list with one more element is the old join, the separator, and the element |
| `Text.SplitJoin` | main.go:21 | splitting a `", "`-join at `", "` gives back the non-empty list when no element contains the separator |
| `Text.SplitFirst` | main.go:73 | `SplitN(s, ":", 2)` gives one or two parts, and one part exactly when there is no colon |
| `Text.SplitFirstJoins` | main.go:73 | a single part is the whole string; two parts are a colon-free head and a tail that rejoin around the colon |
| `Text.SplitFirstOf` | main.go:73 | the split happens at the first colon only: later colons stay in the tail |
| `Text.IsSpace` | main.go:74 | no contract of its own: the white-space table of Go's `unicode.IsSpace` that `strings.TrimSpace` uses (tab to carriage return, space, U+0085, U+00A0, U+1680, U+2000-U+200A, U+2028, U+2029, U+202F, U+205F, U+3000) |
| `Text.TrimSpace` | main.go:74 | the result is never longer than the input; `TrimSpaceSlice` and `TrimSpaceUnique` pin it down completely |
| `Text.TrimSpaceSlice` | main.go:74 | `TrimSpace` returns one contiguous, untouched piece of its input, neither end of it white space, and everything removed is white space |
| `Text.TrimSpaceUnique` | main.go:74 | any decomposition into white space, a trimmed core and white space gives that core as the result |
| `Text.TrimSpaceIdempotent` | main.go:74 | trimming twice equals trimming once |
| `Text.TrimSpaceKeeps` | main.go:74 | trimming introduces no rune that was not in the input |
| `Header.ParseEntry` | main.go:73-74 | an entry yields a pair exactly when it contains a colon |
| `Header.ParseEntryOf` | main.go:73-74 | for a colon-free raw name, `name:value` yields the trimmed name and the trimmed value |
| `Header.ParseEntryLaterColons` | main.go:73 | `"A: b:c"` yields name `A` and value `b:c` |
| `Header.ParseEntryShape` | main.go:73-74 | a parsed name has no colon; name and value have no white space at either end |
| `Header.MakeHeader` | main.go:70-77 | success gives one pair per entry, in entry order, each the parse of its entry; failure names the first entry that does not parse, and all earlier entries parse |
| `Header.MakeHeaderNeedsColons` | main.go:72-74 | the header is built exactly when every entry contains a colon; on failure the entry named has none and all entries before it do |
| `Header.MakeHeaderOk` | main.go:70-77 | when every entry parses, the result is exactly the parsed pairs in order |
| `Header.FlagsBecomeFields` | main.go:70-77 | `-H name:value` flags with colon-free names become exactly the trimmed pairs, in flag order, repeats kept |
| `Header.Add` | main.go:74 | `http.Header.Add`: the canonical name gets the value appended after the values it already had (a fresh list if it had none); no other name is added, removed or changed |
| `Header.ToMap` | main.go:71-75 | after the loop every field's canonical name is present, and no name maps to an empty list |
| `Header.ToMapValues` | main.go:71-75 | a canonical name is in the built header exactly when some pair has it, and it then lists every such value in input order |
| `Startup.Validate` | main.go:48-60 | the missing-url error iff the target is empty; the bad-origin error iff target non-empty, origin non-empty and unparsable; otherwise the origin is unset when empty and kept when it parses |
| `Startup.EmptyOriginNeverParsed` | main.go:53-60 | with an empty origin the outcome does not depend on the parser, and a non-empty target then proceeds with no origin |
| `Startup.Start` | main.go:48-61 | an empty target is refused whatever the headers; refusal iff a configuration check fails, and it carries that check's error (missing url, or the bad origin); dialling iff both checks pass and every `-H` value has a colon; the panic is exactly `makeHeader`'s failure at the first entry without a colon; the dial carries the target, the accepted origin and the header built from the `-H` values |
| `Startup.ExitCode` | main.go:48-60 | configuration errors exit with status 1, the header panic with status 2, and only a dial continues |
| `Startup.DefaultsDial` | main.go:33-34 | with the default `-u`/`-o` and no `-H`, start-up dials exactly when the default origin parses |
| `Writer.Outbound` | main.go:63-66 | the frames are the command, only when non-empty and then first, followed by every input line unchanged and in order; one frame per line |
| `Writer.Echo` | main.go:119 | no contract of its own: characterised by `EchoFrame` |
| `Writer.EchoFrame` | main.go:119 | the echo is `>> `, the frame unchanged and a newline, so the frame can be read back from it |
| `Writer.WriteText` | main.go:117-120 | no contract of its own: the write of the frame followed by its echo; characterised through `TraceSnoc`, `TraceFrames` and `TraceEchoes` |
| `Writer.Trace` | main.go:109-120 | two events per frame; `TraceFrames` and `TraceEchoes` give its contents |
| `Writer.TraceSnoc` | main.go:117-120 | one more `writeText` extends the trace by that frame's write and then its `>> ` echo |
| `Writer.TraceFrames` | main.go:117-120 | the frames a sequence of `writeText` calls sends are exactly its arguments, in order, and nothing else |
| `Writer.TraceEchoes` | main.go:117-120 | every frame is written and then, at once, echoed as `>> frame` and a newline; two events per frame |
| `Writer.Run` | main.go:109-120 | the session is `writeText` applied to each reference frame in order, so it sends exactly the command (when non-empty) and then every input line the writer reaches before the process ends |
| `Reader.UseColor` | main.go:44-46 | no contract of its own: colour is on unless `-p` was given |
| `Reader.Line` | main.go:130-135 | the printed line is `<< `, then the pretty-printed payload (coloured unless `-p` was given), then a newline |
| `Reader.ReadLoop` | main.go:123-136 | one printed line per successful read, made from exactly the bytes of that read; the loop stops at the first failed read with its error, and some read fails iff it stops that way; otherwise the given reads ran out while the loop was still reading, since the source's loop never ends on its own |

## Left out

- `connect` (`websocket.NewConfig`, `DialConfig`, main.go:79-93): the handshake runs inside a library that is not part of this model. `Startup.Start` stops at the parameters it would be given.
- `trapCtrlC` (main.go:96-106): signal delivery, a goroutine, closing the connection and `os.Exit(0)` are concurrency and process lifetime.
- `Writer.Run`: the writer is a goroutine, and the process can end while it still runs, by the read loop's `log.Fatal` (main.go:127-128) or by `os.Exit(0)` on an interrupt (main.go:103). The frames actually sent are then a prefix of the reference order. The model's `lines` are the lines written before the process ends.
- Concurrency between the writer goroutine and the read loop: the model gives each direction's order separately. It does not model how the two directions' output lines interleave.
- `flag.Parse` and the `bufio.Scanner` line splitting: the model starts from the flag values and from the scanned lines. The scanner's own rules, such as dropping a trailing carriage return and the 64 KiB token limit, belong to Go's library.
- `http.Header.Add`'s key canonicalisation (`textproto`): it is the parameter `canon` of `Header.ToMap`.
- `url.Parse`: it is the predicate `parses`. The parsed URL value is represented by the origin text it came from.
- `pretty.Pretty` and `pretty.Color`: third-party formatting, passed to `Reader.ReadLoop` as functions. The JSON rendering and the fallback for invalid JSON are therefore not modelled.
- The connection's `Read` is assumed to meet the `io.Reader` contract: it stores at most `len(msg)` = 16384 bytes. What the WebSocket library does with a frame longer than the buffer is not part of this model.
- Write errors: `writeText` discards the result of `ws.Write`. The trace records each attempted write, and the echo follows either way.
- Go strings are modelled as rune sequences. Invalid UTF-8, which `TrimSpace` treats byte by byte, is not modelled.
- `log.Fatal` output and the missing-url / origin diagnostics on standard error: only the outcome and exit status are modelled.
