# mini-redis in Dafny

A model of a small key-value server and its command-line client.
The server keeps a map from string keys to string values.
It answers Ping, Set, Get and Del requests.
It appends every Set and Del to an append-only file (AOF) and replays that file into the map at start-up.
A logging middleware refuses any request whose debug text contains "Illegal".
The client turns typed lines into requests.

The model is sequential: one request at a time, no locking.
The AOF is held as its text (`Server.aof`), and I/O failures are explicit fault parameters.

Files and modules:

- `text.dfy`, module `Text`: the Rust string primitives the code relies on.
  These are `split(' ')`, `join(" ")`, `BufRead::lines`, `str::contains` and `format!("{}", n)`.
  Each has its partner proved: Split inverts Join, Lines inverts Unlines, and the decimal spelling reads back to its number.
- `protocol.dfy`, module `Protocol`: the request and response records, and `WellFormed`.
  `WellFormed` is the shape a request needs so that the server's `unwrap`s do not panic.
- `mini_redis.dfy`, module `MiniRedis` (src/lib.rs): the AOF serialiser `RedisOperation` and the command semantics `Apply` / `Answer`.
  It also holds the `Server` class (map plus AOF text), the dispatcher `RedisCommand` with its Del loop `RemoveKeys`, the append `ConnectToAof`, and the middleware `LogCall`.
- `server_main.dfy`, module `ServerMain` (src/bin/server.rs): the log-line parser (`ParseLogLine`, and the method `Operation` with its copy loop).
  It also holds replay (`Replay`, and the method `RebuildDataFromAof` with its loop over lines) and start-up (`StartServer`).
- `client_main.dfy`, module `ClientMain` (src/bin/client.rs): the input-line parser (`ClientCommand`, and the method `ParseInput`) and its characterisation lemmas.
- `durability.dfy`, module `Durability`: the end-to-end theorem.
  Replaying the file the dispatcher wrote reproduces the map the dispatcher produced.
  This holds when every append succeeds, every key and value is free of spaces, line feeds and carriage returns, and no Del has an empty key list.
  It also covers a second session after a restart.
  It also has a lemma showing how an empty Del list breaks this, and "the most recent write wins" for Get.

## Model

| member | source | states |
|---|---|---|
| `Text.Split` | src/bin/server.rs:55 | the pieces of `split(' ')` are at least one, contain no separator, and joined with the separator give back the input |
| `Text.SplitJoin` | src/lib.rs:30 | splitting a join of separator-free tokens gives the tokens back |
| `Text.SplitLength` | src/bin/server.rs:55 | the number of pieces is the number of separators plus one |
| `Text.SplitHead` | src/bin/server.rs:55 | the first piece is the text before the first separator |
| `Text.LinesUnlines` | src/bin/server.rs:33-35 | `lines()` reads back each line written with a line feed, unchanged, when it has no line feed and no trailing carriage return |
| `Text.Contains` | src/lib.rs:123 | `contains` is true exactly when the pattern occurs at some position |
| `Text.Decimal` | src/lib.rs:92 | the count is written in decimal digits only, with no leading zero |
| `Text.DecimalRoundTrip` | src/lib.rs:92 | the decimal text of a count reads back as that count |
| `MiniRedis.RedisOperation` | src/lib.rs:19-36 | the entry is non-empty exactly for a Set with key and value or a Del with a key list. It then starts with "SET " or "DEL " and ends with a line feed |
| `MiniRedis.Apply` | src/lib.rs:57-95 | Set stores the value under `key[0]` and leaves every other key as it was. Del removes every listed key and leaves unlisted keys as they were. Other commands leave the map unchanged |
| `MiniRedis.Answer` | src/lib.rs:50-101 | Ping answers "PONG"/Value and Set "OK!"/Ok. Get answers the stored value or "NULL!", type Value. Del answers decimal text, with no leading zero, that reads back as the number of listed keys that were present, at most the list length. Exit ends the process. Anything else gets the default response |
| `MiniRedis.RemovedBound` | src/lib.rs:82-92 | a Del removes at most as many keys as it lists, so a key listed twice counts once |
| `MiniRedis.Server.constructor` | src/bin/server.rs:14-17 | a server starts with an empty map over the existing file |
| `MiniRedis.Server.ConnectToAof` | src/lib.rs:7-16 | the append adds the entry and a line feed; a failure leaves nothing or only the entry, and is reported |
| `MiniRedis.Server.RemoveKeys` | src/lib.rs:82-87 | the Del loop leaves the map without the listed keys and counts exactly the listed keys that were present |
| `MiniRedis.Server.RedisCommand` | src/lib.rs:45-102 | the new map is `Apply` of the old one and the reply is `Answer` of the old one, whatever the append fault. Only Set and Del append to the file |
| `MiniRedis.LogCall` | src/lib.rs:118-130 | when the debug text contains "Illegal" the call fails with "Illegal！" and the server is untouched. Otherwise the dispatcher's reply passes through unchanged |
| `ServerMain.ParseLogLine` | src/bin/server.rs:54-80 | every parsed line is a well-formed Set, Del or Illegal request |
| `ServerMain.Operation` | src/bin/server.rs:54-80 | the loop that copies the Del keys builds exactly the request `ParseLogLine` describes |
| `ServerMain.ParseLogLineKind` | src/bin/server.rs:55-79 | a line is Set exactly when its keyword is "SET" and it has two spaces. It is Del exactly when its keyword is "DEL", and Illegal otherwise (blank lines, lower-case keywords, SET with another piece count) |
| `ServerMain.ParseSetIff` | src/bin/server.rs:61-67 | a line parses to Set(k, v) exactly when it is "SET k v" with space-free k and v |
| `ServerMain.ParseDelIff` | src/bin/server.rs:68-78 | a line parses to Del(keys) exactly when it is "DEL" followed by the space-free keys in order |
| `ServerMain.ReplaySnoc` | src/bin/server.rs:34-48 | replay handles lines in file order: one more line applies that line's request to the map replayed so far |
| `ServerMain.ReplayConcat` | src/bin/server.rs:34-48 | replaying a file in two parts is replaying the whole |
| `ServerMain.LinesRead` | src/bin/server.rs:32-35 | the lines read are a prefix of the file's lines: all of them without a fault, none if the file cannot be opened |
| `ServerMain.RebuildDataFromAof` | src/bin/server.rs:29-51 | the map becomes the replay of the lines read. The result is an error exactly when the file cannot be opened or a read fails before the end, and lines applied before the error stay applied |
| `ServerMain.StartServer` | src/bin/server.rs:12-21 | at start-up the map is the replay of the existing file from an empty map, and the server starts whatever the replay's outcome |
| `ClientMain.ClientCommand` | src/bin/client.rs:21-62 | the client never builds an Exit request, and every request it builds is one the server can handle without panicking |
| `ClientMain.ParseInput` | src/bin/client.rs:21-62 | the loop that copies the Del keys gives exactly the action `ClientCommand` describes |
| `ClientMain.ClientCommandKind` | src/bin/client.rs:22-62 | "ping" with any extra words gives Ping. "set" needs exactly two spaces and "get" exactly one. "del" takes any number of keys. "exit" alone ends the client. Everything else, including the empty line and "exit x", gives Illegal |
| `ClientMain.ClientSetIff` | src/bin/client.rs:35-41 | the client sends Set(k, v) exactly for "set k v" with space-free k and v |
| `ClientMain.ClientGetIff` | src/bin/client.rs:42-48 | the client sends Get(k) exactly for "get k" with space-free k |
| `ClientMain.ClientDelIff` | src/bin/client.rs:49-59 | the client sends Del(keys) exactly for "del" followed by the space-free keys, which may be none |
| `Durability.EntryRoundTrip` | src/bin/server.rs:61-78 | the parser reads a Set or Del entry (without its line feed) back as the request written. That is `key[0]` only for Set and no value for Del, with the same effect on any map, given tokens without space, line feed or carriage return and a non-empty Del list |
| `Durability.EntryLinePlain` | src/lib.rs:24-30 | an entry line has no line feed and no trailing carriage return, so `lines()` hands it back intact |
| `Durability.BlankLineIsNoOp` | src/lib.rs:13-14 | the blank line left by the writer's extra line feed parses as Illegal, and replaying it changes nothing |
| `Durability.ChunkLines` | src/lib.rs:12-14 | what one append writes reads back as the entry line followed by one blank line |
| `Durability.ReplayEntry` | src/bin/server.rs:37-47 | an entry line and its blank line replay to the effect of the request written |
| `Durability.ReplayChunk` | src/bin/server.rs:34-48 | what the dispatcher appends for one request replays to that request's effect on the map |
| `Durability.ReplayReproducesRun` | src/bin/server.rs:29-51 | when every append succeeds, for requests whose tokens hold no space, line feed or carriage return and with no empty Del list: replaying the file written while handling a sequence of commands gives the map the commands produced directly, from any starting map |
| `Durability.RestartRecovers` | src/bin/server.rs:19-21 | when every append succeeded, for requests whose tokens hold no space, line feed or carriage return and with no empty Del list: after a restart from an empty map with every line read, the map is the one the server had |
| `Durability.LogTextConcat` | src/lib.rs:7-16 | appends accumulate: the file after handling two command sequences in turn is the first one's text followed by the second one's |
| `Durability.RunConcat` | src/lib.rs:57-95 | handling two command sequences in turn is handling their concatenation |
| `Durability.SecondRestartRecovers` | src/bin/server.rs:12-21 | a server started over a first session's file recovers that session's map. After it handles more commands with every append succeeding, the next restart recovers the map it ended with, which is the map of both sessions' commands from an empty store |
| `Durability.FailedAppendLosesWrite` | src/lib.rs:57-61 | a Set whose open or entry write fails still updates the live map, but leaves the file as it was, so a replay gives the map from before the Set |
| `Durability.EmptyDelMisread` | src/lib.rs:30 | a Del with an empty key list is written as "DEL ", which reads back as a Del of the empty key |
| `Durability.EmptyDelDiverges` | src/bin/server.rs:68-78 | with the empty key present, the live empty Del keeps it but replaying its entry removes it |
| `Durability.LostNewlineHarmless` | src/lib.rs:13-14 | if only the extra line feed fails to be written, replay still gives the request's effect |
| `Durability.ClientRequestDurable` | src/bin/client.rs:35-59 | every Set, and every Del with a key, that the client builds from a line without carriage returns survives the log round trip |
| `Durability.GetSeesLastWrite` | src/lib.rs:57-92 | after any command sequence, Get answers the value of the most recent Set of the key. It answers "NULL!" when a later Del listed the key, or when nothing wrote it and it was absent |

## Left out

- Transport, code-generated types and server binding are not modelled (src/bin/server.rs:9-10, 22-25; src/bin/client.rs:5-13, 63-67). These are foreign library calls, so the request and response records stand in for the generated types.
- The client's read loop over standard input (src/bin/client.rs:18-20) is not modelled, and neither is sending the request or printing the response. One call of `ClientCommand` models one turn of that loop.
- Real file I/O is not modelled. The file is its text, and the ways `open`, `write_all` and `lines()` can fail are the fault parameters `AppendFault` and `ReadFault`. A missing file is one way `File::open` fails.
- `MiniRedis.Server.ConnectToAof`: a `write_all` that fails after writing part of its buffer is modelled as writing none of it.
- Locking and concurrency are not modelled: the `Mutex` around the map, the per-key locking inside the Del loop, and the race between updating the map and appending to the file. Commands run one at a time.
- `MiniRedis.Server.RedisCommand`: `process::exit` for Exit is the terminal outcome `ProcessExit`, with no state change. Aborting other in-flight commands is not modelled.
- Panics are not modelled. The `unwrap`s on a missing key, value or first key (src/lib.rs:58, 68, 83; `key[0]` at src/lib.rs:24) are preconditions (`WellFormed`). So is the `unwrap` on input without a final line feed (src/bin/client.rs:21).
- Tracing, `println!` and the latency timing in the middleware are not modelled (src/lib.rs:119-122, 127-128).
- The request's `Debug` text is an input string to `LogCall`. The formatter is foreign, so "this request's text contains Illegal" is not derived from the request itself.
- `MiniRedis.LogCall`: the middleware is generic over any inner service. Here it is modelled around the dispatcher only. In the repository it is actually layered on the client (src/bin/client.rs:9), in front of the remote call.
- `MiniRedis.Answer`: the Del count is an `i32` in the source. Overflow past 2^31 - 1 removals is not modelled.
- `MiniRedis.Answer`: the default response is taken as no value with the zero enumeration value. That is taken to be `Ok`, the first of Ok, Value, Error, because the interface definition that fixes the order is not part of this model.
- `ServerMain.RebuildDataFromAof`: for a Del line it reuses `Server.RemoveKeys`, the dispatcher's loop, and drops the count. The source repeats the same removal loop without counting.
- `ServerMain.Operation`: `split(' ')` is the `Text.Split` function rather than an iterator.

Where the code and the behaviour documented for the service disagree, the model follows the code:

- Ping answers with response type Value, not Ok (src/lib.rs:54).
- Every append writes the entry's own line feed and then one more (src/lib.rs:13-14). So the file holds a blank line after each entry. Replay ignores it (`Durability.BlankLineIsNoOp`).
- A missing file makes `File::open` fail, and replay returns an error (src/bin/server.rs:32). The server only logs it and starts with an empty map (`ServerMain.StartServer`).
- Del accepts an empty key list: the client builds one from "del" alone, and the server answers "0". Its entry "DEL " does not replay faithfully (`Durability.EmptyDelDiverges`). The durability theorem therefore requires non-empty Del lists.
- The durability theorem needs keys and values without space or line feed. It also excludes carriage returns, because `lines()` removes a carriage return that sits just before a line feed. Only a carriage return at the very end of an entry line (the end of a Set value or of the last Del key) is actually lost, so excluding every carriage return is stronger than needed.
- A failed append is only logged, and the map update is not rolled back (src/lib.rs:58-61, 84-90). A write whose open or entry write fails is therefore lost at the next restart (`Durability.FailedAppendLosesWrite`), and the durability theorem covers only runs where every append succeeds.
