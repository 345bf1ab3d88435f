/** The Lua state as the launcher sees it: the requests made to it, in order, and the few
    parts of its state the launcher sets (the collector switch and the global `arg`). */
module Engine {
  import opened Results
  import opened CTypes

  /** What the engine is asked to do, in order. */
  datatype Event =
    | GcStop
    | OpenLibs(gcRunning: bool)
    | GcRestart
    | LoadCalled(gcRunning: bool)
    | Loaded(chunk: seq<byte>)
    | SetArg(table: map<int, string>)
    | Called(chunk: seq<byte>, args: seq<string>)


  /** The Lua state. How the engine judges a payload (`compile`), what running it ends
      in (`execute`) and how many values its stack can still take (`stackRoom`) are
      outside this model and given when the state is created. */
  class Lua {
    const compile: seq<byte> -> Option<string>
    const execute: (seq<byte>, Option<map<int, string>>, seq<string>) -> Option<string>
    const stackRoom: nat
    var gcRunning: bool
    var arg: Option<map<int, string>>
    var trace: seq<Event>

    constructor (compile: seq<byte> -> Option<string>,
                 execute: (seq<byte>, Option<map<int, string>>, seq<string>) -> Option<string>,
                 stackRoom: nat)
      ensures this.compile == compile && this.execute == execute && this.stackRoom == stackRoom
      ensures gcRunning && arg == None && trace == []
    {
      this.compile := compile;
      this.execute := execute;
      this.stackRoom := stackRoom;
      gcRunning := true;
      arg := None;
      trace := [];
    }

    method StopGc()
      modifies this`gcRunning, this`trace
      ensures !gcRunning && trace == old(trace) + [GcStop]
    {
      gcRunning := false;
      trace := trace + [GcStop];
    }

    method RestartGc()
      modifies this`gcRunning, this`trace
      ensures gcRunning && trace == old(trace) + [GcRestart]
    {
      gcRunning := true;
      trace := trace + [GcRestart];
    }

    /** luaL_openlibs: registers the libraries, noting whether the collector was running. */
    method OpenLibraries()
      modifies this`trace
      ensures trace == old(trace) + [OpenLibs(gcRunning)]
    {
      trace := trace + [OpenLibs(gcRunning)];
    }

    /** lua_load starts pulling the payload, with the collector running or not. */
    method BeginLoad()
      modifies this`trace
      ensures trace == old(trace) + [LoadCalled(gcRunning)]
    {
      trace := trace + [LoadCalled(gcRunning)];
    }

    /** The compiled payload is left on the stack by a successful lua_load. */
    method PushChunk(chunk: seq<byte>)
      modifies this`trace
      ensures trace == old(trace) + [Loaded(chunk)]
    {
      trace := trace + [Loaded(chunk)];
    }

    method SetGlobalArg(table: map<int, string>)
      modifies this`arg, this`trace
      ensures arg == Some(table) && trace == old(trace) + [SetArg(table)]
    {
      arg := Some(table);
      trace := trace + [SetArg(table)];
    }

    /** luaL_checkstack: whether k more values fit on the stack. */
    method CheckStack(k: nat) returns (ok: bool)
      ensures ok <==> k <= stackRoom
    {
      ok := k <= stackRoom;
    }

    /** lua_call(L, |args|, 0): runs the chunk with the arguments, ending in an error message or not. */
    method Call(chunk: seq<byte>, args: seq<string>) returns (err: Option<string>)
      modifies this`trace
      ensures trace == old(trace) + [Called(chunk, args)]
      ensures err == execute(chunk, arg, args)
    {
      trace := trace + [Called(chunk, args)];
      err := execute(chunk, arg, args);
    }
  }
}
