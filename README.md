# srlua launcher model

srlua builds self-running Lua programs: a small C launcher, a Lua payload and a
trailer ("glue") are written into one executable file. At start-up, `main` creates a Lua
state and runs `pmain` in protected mode. `pmain` then does these steps in order:

- stops the garbage collector;
- registers the standard libraries;
- restarts the collector;
- calls `load` on the program's own file (`argv[0]`).

`load` opens that file, seeks to its last `sizeof(Glue)` bytes and reads the trailer. It
then checks the trailer's signature `%%glue:L`, seeks to the payload offset `size1` and hands
Lua's incremental loader the reader `myget`. `myget` streams `size2` bytes in blocks of at
most 512 bytes. Once loaded, `pmain` does the following:

- sets the global table `arg` to `{0: argv[0], 1: argv[1], ...}`;
- checks that the stack can hold the arguments;
- calls the payload with `argv[1..]`.

Any failure ends in `fatal`, which writes `progname: message` to stderr and exits with
`EXIT_FAILURE`.

The model is imperative where the C code is:

- a `File` class with a cursor stands for the stdio calls;
- the loader's `State` is a class with a remaining-byte count and a 512-byte `array`;
- `myget` is a method, and the loader's pull loop is a `while` loop;
- the Lua state is a `Lua` object that records, in a trace, what the engine is asked to do
  (stop or restart the collector, open the libraries, start `lua_load`, leave the compiled
  chunk, set `arg`, call the chunk);
- `load` and `pmain` are methods that act on that object, and `main` (`Launch`) creates it
  and runs `pmain` on it.

Each method is proved against a specification function: `Chunks` and `Payload` for the
reader, `LoadSpec` for `load`, `BootSpec` for `pmain`. Lemmas prove the properties of those
functions.

Files:

- `results.dfy`: `Option` and `Result`.
- `ctypes.dfy`: bytes, and the 64-bit two's-complement little-endian `long`.
- `glue.dfy`: the trailer record and the signature check.
- `engine.dfy`: the Lua state as the launcher uses it.
- `stdio.dfy`: `fopen`, `fseek`, `fread` and `fclose` over files held as bytes.
- `reader.dfy`: `State`, `myget` and the loader's pull loop.
- `loader.dfy`: `load`.
- `bootstrap.dfy`: `pmain`, `fatal` and `main`.

Two behaviours of the code shape what the model proves:

- **Closing the file.** `load` calls `fclose` only after a successful `lua_load`
  (srlua/srlua.c:96-97). On every error path the file stays open, because `luaL_error` and
  `lua_error` do not return. `Loader.Load` returns the handle `fopen` gave and states that it
  is still open exactly when loading failed.
- **Read errors.** `myget` cannot tell a read error from end of file. `fread` returns a
  `size_t`, so the `n==-1` test at srlua/srlua.c:77 never fires (`Reader.State.MyGet`
  asserts `n != SIZE_MAX` there). A failed or short read therefore yields a block of fewer
  bytes, or an empty block that ends the stream. It is never reported as an error. As a
  result, `load` hands the engine a truncated payload, with no error, in two cases:
  - a `size2` that runs past the end of the file (`Loader.OverlongPayloadStopsAtEof`);
  - an unreadable byte inside the payload (`Loader.ReadErrorTruncatesPayload`).

## Model

| member | source | states |
|---|---|---|
| Glue.SigMatches | srlua/srlua.c:93 | the `memcmp` signature test succeeds iff each of the GLUELEN trailer bytes equals the matching byte of `%%glue:L` |
| Glue.FlippedSignatureRejected | srlua/srlua.c:93 | changing any single byte of a matching signature makes the check fail |
| Glue.EncodeDecode | srlua/srlua.c:92 | reading the trailer loses nothing: any `sizeof(Glue)` bytes hold longs in range, and writing the record back gives the same bytes |
| Glue.DecodeEncode | srlua/srlua.c:92-95 | a trailer written as signature plus two longs is read back by `load` as the same signature, `size1` and `size2` |
| CTypes.LongRoundTrip | srlua/srlua.c:94-95 | every `long` value survives being stored as 8 little-endian bytes and read back |
| Stdio.Available | srlua/srlua.c:76 | `fread` delivers at most the n bytes asked for; it delivers fewer only where reading stops (end of file or an unreadable byte), and then every byte before that point |
| Stdio.StopAtBad | srlua/srlua.c:76 | a read over readable bytes stops exactly at the first unreadable byte it meets |
| Stdio.StopPastReadable | srlua/srlua.c:76 | a read that starts in a readable range runs at least to the end of that range |
| Stdio.StopStable | srlua/srlua.c:76 | continuing a read from where an earlier read left off stops at the same place, so reading in blocks stops where one large read would |
| Stdio.File.Open | srlua/srlua.c:89 | `fopen` gives an open handle on the named file with its cursor at offset 0 |
| Stdio.File.Close | srlua/srlua.c:97 | `fclose` leaves the handle closed |
| Stdio.File.Seek | srlua/srlua.c:91 | `fseek` succeeds iff the target offset is not negative; on success the cursor moves to it, otherwise it stays put |
| Stdio.File.Read | srlua/srlua.c:76 | `fread` copies the available bytes at the cursor into the buffer, advances the cursor by their count and leaves the rest of the buffer unchanged |
| Reader.State.constructor | srlua/srlua.c:88-95 | the reader state holds the open file and `size2` as the count still to deliver, with a fresh 512-byte buffer |
| Reader.State.MyGet | srlua/srlua.c:70-81 | returns NULL without reading when `size <= 0`; otherwise returns a block of the bytes `fread` delivers for `min(512, size)`, lowers `size` by exactly that count (never below 0), advances the cursor by it and leaves those bytes in `buff`; the block is the first entry of `Chunks` and the rest of `Chunks` starts from the new state |
| Reader.ChunksArePayload | srlua/srlua.c:74-80 | the blocks that successive `myget` calls deliver, concatenated, are exactly the payload bytes from the start offset, cut short only where reading stops |
| Reader.ChunkSizes | srlua/srlua.c:75-79 | no delivered block is empty or longer than 512 bytes, and every block but the last is exactly 512 bytes |
| Reader.TwoBuffersAndSeven | srlua/srlua.c:74-80 | a payload of 1031 bytes that can all be read comes out as three blocks of 512, 512 and 7 bytes |
| Reader.Pull | srlua/srlua.c:96 | the loader's pull loop calls `myget` until NULL or an empty block; the text it collects is the concatenation of `Chunks` and equals `Payload` |
| Loader.Message | srlua/srlua.c:83-93 | an I/O failure reads "cannot open/seek/read NAME" and a missing signature "no Lua program found in NAME", both ending with the file name; an engine rejection passes the engine's own message unchanged |
| Loader.MessagesTellFailuresApart | srlua/srlua.c:83-93 | for one file name, different load failures (open, seek, read, no program) never give the same message |
| Loader.Trailer | srlua/srlua.c:91-92 | the trailer is the last `sizeof(Glue)` bytes of the file |
| Loader.Load | srlua/srlua.c:85-98 | `load` ends in `LoadSpec`. It asks the engine for exactly `LoadEvents`: nothing before the payload is reached, then the `lua_load` call with the collector as it is, then the chunk if the engine accepts it. It returns the handle `fopen` gave (none when the file is missing), which is still open exactly when loading failed. Failures before the payload pull no bytes. On success, the blocks pulled concatenate to the loaded text, and every pulled block is well sized |
| Loader.StreamPayload | srlua/srlua.c:94-97 | once the signature matched: the seek to `size1`, then `lua_load` pulling through `myget`, then `fclose` only when the engine accepts the text; it ends in `PayloadSpec` and makes the same engine requests |
| Loader.TrailerRead | srlua/srlua.c:91-92 | when every byte of the trailer can be read, `fread` of `sizeof(Glue)` bytes at the end of the file succeeds |
| Loader.ShortFileFailsAtSeek | srlua/srlua.c:91 | a file shorter than the trailer fails at the seek ("cannot seek"), never at the signature check |
| Loader.NoProgramExactlyOnBadSignature | srlua/srlua.c:93 | on a file whose trailer can be read, loading ends in "no Lua program found" iff the trailer's signature differs from `%%glue:L` |
| Loader.WellFormedPayload | srlua/srlua.c:94-96 | when every byte of `file[size1 .. size1+size2)` can be read, the payload, and the blocks delivered, are exactly that range |
| Loader.WellFormedFileLoads | srlua/srlua.c:89-96 | loading a file whose readable trailer is signed and whose payload range can be read hands the engine exactly `file[size1 .. size1+size2)` |
| Loader.ComposedFileLoads | srlua/srlua.c:89-96 | a file made of launcher bytes, then the payload, then a trailer `(%%glue:L, len(launcher), len(payload))`, readable from the payload on, loads exactly the payload |
| Loader.OverlongPayloadStopsAtEof | srlua/srlua.c:76-79 | a `size2` that runs past the end of the file is not an error: `myget` keeps delivering blocks up to the end of the file (the trailer included), and a loader that pulls until the end receives all of them as the program text |
| Loader.ReadErrorTruncatesPayload | srlua/srlua.c:76-79 | an unreadable byte inside the payload is not reported: `myget` delivers the bytes before it and then an empty block, and the engine receives `file[size1 .. b)` as the program text, where b is the first unreadable offset |
| Engine.Lua.constructor | srlua/srlua.c:143 | `lua_open` gives a fresh state with the collector running, no global `arg` and no requests made yet |
| Engine.Lua.StopGc | srlua/srlua.c:104 | `lua_gc(L, LUA_GCSTOP, 0)` stops the collector and is recorded as the next request |
| Engine.Lua.RestartGc | srlua/srlua.c:106 | `lua_gc(L, LUA_GCRESTART, 0)` restarts the collector and is recorded as the next request |
| Engine.Lua.BeginLoad | srlua/srlua.c:96 | the `lua_load` call is recorded as the next request, together with whether the collector is running at that moment |
| Engine.Lua.PushChunk | srlua/srlua.c:96 | a successful `lua_load` leaves the compiled payload as the next recorded step |
| Engine.Lua.SetGlobalArg | srlua/srlua.c:115 | `lua_setglobal(L, "arg")` makes the global `arg` exactly the given table and records it |
| Engine.Lua.OpenLibraries | srlua/srlua.c:54-61 | registering the libraries is recorded together with whether the collector was running at that moment |
| Engine.Lua.CheckStack | srlua/srlua.c:116 | `luaL_checkstack` succeeds iff k more values fit in the room left on the stack |
| Engine.Lua.Call | srlua/srlua.c:121 | the call passes the chunk and exactly the pushed arguments and ends in what running them ends in |
| Bootstrap.BuildArgTable | srlua/srlua.c:108-115 | the counting loop yields argc == len(argv); the filling loop yields a table with keys exactly 0..argc-1 and `table[i] == argv[i]` |
| Bootstrap.PushArgs | srlua/srlua.c:117-120 | the pushing loop pushes exactly `argv[1..]`, in order |
| Bootstrap.PMain | srlua/srlua.c:100-123 | the requests `pmain` makes to the engine, and the error it ends in, are those `BootSpec` gives for the outcome of loading `argv[0]` |
| Bootstrap.LibrariesBeforePayload | srlua/srlua.c:104-107 | whatever loading ends in, the first requests are: stop the collector, open the libraries with the collector stopped, restart it. Only payload requests follow. The `lua_load` call, whenever the payload is reached (accepted or rejected), is the fourth request, made with the collector running. The compiled chunk comes right after it |
| Bootstrap.RejectedPayloadReachedEngine | srlua/srlua.c:96 | a payload the engine rejects was still handed to `lua_load` after the libraries, with the collector running, and `pmain` fails with the engine's own message |
| Bootstrap.ArgumentsForwarded | srlua/srlua.c:107-121 | after a successful load whose arguments fit, `arg` maps exactly each i in 0..argc-1 to `argv[i]`, and the payload is called with `argv[1..]` in order |
| Bootstrap.ProgAB | srlua/srlua.c:108-121 | running `prog a b` sets `arg = {0: prog, 1: a, 2: b}` and calls the payload with `("a", "b")` |
| Bootstrap.NoProgramNeverRuns | srlua/srlua.c:93-107 | when the program's file has a readable trailer without the signature, nothing of it reaches the engine, and `pmain` fails with "no Lua program found in argv[0]" right after the libraries |
| Bootstrap.Fatal | srlua/srlua.c:125-133 | `fatal` ends the process with `EXIT_FAILURE` (never `EXIT_SUCCESS`) and one stderr line ending in a newline |
| Bootstrap.FatalLine | srlua/srlua.c:130 | the line `fprintf` writes holds no NUL; for a program name and message without NUL it is exactly "progname: message" and a newline |
| Bootstrap.FatalStopsAtNul | srlua/srlua.c:130 | `%s` writes a message only up to its first NUL: `fatal(p, "a\0b")` writes what `fatal(p, "a")` writes |
| CTypes.CStrPrefix | srlua/srlua.c:130 | the C string a character array holds is a prefix of it without NUL, and it is either the whole array or cut at a NUL |
| Bootstrap.Launch | srlua/srlua.c:125-148 | `main` fails with "srlua: cannot locate this executable" without argv[0], and with "argv[0]: not enough memory for state" when no state can be created. Otherwise it runs `pmain`: it exits with `EXIT_SUCCESS` and no output when `pmain` returns no error, and with `fatal(argv[0], message)` when it does |

## Left out

- The Lua engine is not modelled. Three things are given as parameters of the `Lua` state:
  - whether a payload text compiles (`compile`);
  - what running it ends in (`execute`);
  - how many values the stack can still take (`stackRoom`).
- Whether `lua_open` can allocate a state is the parameter `memoryOk` of `Launch`.
- The libraries themselves (`lualibs`, including lpeg) are not modelled. Registering them is
  one recorded step, because what each library does is outside the launcher.
- Loader.Load: the model's engine pulls blocks until `myget` returns NULL or an empty block,
  then gives its verdict (`compile`) on the whole text. This is how Lua reads a source-text
  payload that compiles. The real `lua_load` may stop pulling earlier:
  - at the first syntax error in a source text;
  - for a precompiled (luac) chunk, right after the chunk's own bytes, without asking for
    more and without checking whether bytes follow.
  In those cases fewer bytes are read than the model pulls. For precompiled payloads, and
  for an over-long `size2` (Loader.OverlongPayloadStopsAtEof), the model describes a
  source-text payload only.
- Loader.Message: the `strerror(errno)` text that follows "cannot open/seek/read NAME" is
  left out, because it is produced by the C library.
- Glue.Decode: `glue.h` is not part of this model. Its layout is assumed to be:
  - the 8-byte signature `%%glue:L`;
  - then `size1` and `size2` as 64-bit little-endian two's-complement `long`s, without
    padding (LP64).
- I/O errors are modelled only as the set of offsets whose bytes cannot be read
  (`Image.bad`). A read stops at the first such offset. Errors that depend on time or on
  the order of reads are not modelled. Failing `fopen` is modelled only as a name that is not
  among the files.
- `fseek` past the end of the file succeeds, as on POSIX. The model does not include seek
  errors other than a negative target.
- The Windows-only code (`GetModuleFileName`, `MessageBox`) is not modelled. An empty `argv`
  stands for `argv[0] == NULL`.
- `lua_close` at the end of `main` is not modelled. Besides freeing the state, it runs the
  payload's pending finalizers (`__gc` metamethods), which may have visible effects. Those
  belong to the engine and are outside this model. On a failure, `fatal` calls `exit` before
  `lua_close` is reached, so they never run there.
- Bootstrap.Fatal: an error value that is not a string (`error({})`, `error()`) makes
  `lua_tostring` return NULL at srlua/srlua.c:145, and passing NULL to `%s` is undefined
  behaviour. The model's engine reports only string errors (`execute` returns
  `Option<string>`), so this case is not modelled.
- The composing tool (glue.c) and the lunamark front end (lunamark.c) are not part of this
  model.
