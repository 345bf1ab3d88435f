/** Process start-up: main creates the Lua state and runs pmain in protected mode;
    pmain registers the libraries with the collector stopped, loads the payload, sets
    the global `arg` table and calls the payload with the command-line arguments;
    every failure ends in fatal, which reports "progname: message" and exits. */
module Bootstrap {
  import opened Results
  import opened CTypes
  import opened Stdio
  import opened Glue
  import opened Engine
  import opened Loader

  const STACK_MESSAGE: string := "stack overflow (too many arguments to script)"

  /** The table {0: argv[0], 1: argv[1], ...} that becomes the global `arg`. */
  function ArgTable(argv: seq<string>): (t: map<int, string>)
  {
    map i | 0 <= i < |argv| :: argv[i]
  }

  lemma ArgTableDetermined(argv: seq<string>, table: map<int, string>)
    requires forall i :: i in table <==> 0 <= i < |argv|
    requires forall i :: 0 <= i < |argv| ==> table[i] == argv[i]
    ensures table == ArgTable(argv)
  {
  }

  lemma ArgsDetermined(argv: seq<string>, args: seq<string>)
    requires |argv| >= 1 && |args| == |argv| - 1
    requires forall j :: 0 <= j < |args| ==> args[j] == argv[j + 1]
    ensures args == argv[1..]
  {
  }

  /** The counting loop and the loop that fills the `arg` table. */
  method BuildArgTable(argv: seq<string>) returns (argc: nat, table: map<int, string>)
    requires |argv| >= 1
    ensures argc == |argv|
    ensures forall i :: i in table <==> 0 <= i < |argv|
    ensures forall i :: 0 <= i < |argv| ==> table[i] == argv[i]
  {
    var i := 1;
    while i < |argv|
      invariant 1 <= i <= |argv|
    {
      i := i + 1;
    }
    argc := i;
    table := map[];
    i := 0;
    while i < |argv|
      invariant 0 <= i <= |argv|
      invariant forall j :: j in table <==> 0 <= j < i
      invariant forall j :: 0 <= j < i ==> table[j] == argv[j]
    {
      table := table[i := argv[i]];
      i := i + 1;
    }
  }

  /** The loop that pushes argv[1..] as the payload's call arguments. */
  method PushArgs(argv: seq<string>) returns (args: seq<string>)
    requires |argv| >= 1
    ensures |args| == |argv| - 1
    ensures forall j :: 0 <= j < |args| ==> args[j] == argv[j + 1]
  {
    args := [];
    var i := 1;
    while i < |argv|
      invariant 1 <= i <= |argv|
      invariant args == argv[1..i]
    {
      args := args + [argv[i]];
      i := i + 1;
    }
  }

  /** What pmain does: the engine requests it makes, and the error it ends in, if any. */
  datatype Boot = Boot(events: seq<Event>, err: Option<string>)

  /** pmain's requests once load has ended in `loaded`. */
  function BootSpec(loaded: Result<seq<byte>, LoadError>, argv: seq<string>,
                    execute: (seq<byte>, Option<map<int, string>>, seq<string>) -> Option<string>,
                    stackRoom: nat): Boot
    requires |argv| >= 1
  {
    var loading := [GcStop, OpenLibs(false), GcRestart] + LoadEvents(loaded, true);
    match loaded
    case Failure(e) => Boot(loading, Some(Message(e)))
    case Success(chunk) =>
      var table := ArgTable(argv);
      var ready := loading + [SetArg(table)];
      if |argv| - 1 > stackRoom then Boot(ready, Some(STACK_MESSAGE))
      else Boot(ready + [Called(chunk, argv[1..])], execute(chunk, Some(table), argv[1..]))
  }

  method PMain(L: Lua, fs: map<string, Image>, argv: seq<string>) returns (err: Option<string>)
    requires |argv| >= 1 && L.trace == []
    modifies L
    ensures var b := BootSpec(LoadSpec(fs, argv[0], L.compile), argv, L.execute, L.stackRoom);
      L.trace == b.events && err == b.err
  {
    L.StopGc();
    L.OpenLibraries();
    L.RestartGc();
    assert L.trace == [GcStop, OpenLibs(false), GcRestart];
    var r, file, pulled := Load(L, fs, argv[0]);
    if r.Failure? {
      return Some(Message(r.error));
    }
    var argc, table := BuildArgTable(argv);
    ArgTableDetermined(argv, table);
    L.SetGlobalArg(table);
    var ok := L.CheckStack(argc - 1);
    if !ok {
      return Some(STACK_MESSAGE);
    }
    var args := PushArgs(argv);
    ArgsDetermined(argv, args);
    err := L.Call(r.value, args);
  }

  const EXIT_SUCCESS: int := 0
  const EXIT_FAILURE: int := 1

  /** How the process ends: its exit status and what it wrote to stderr. */
  datatype Exit = Exit(status: int, stderr: string)

  /** fatal(progname, message): the process fails with one line on stderr, written by
      fprintf's "%s: %s\n", so each string is written up to its first NUL. */
  function Fatal(progname: string, message: string): (e: Exit)
    ensures e.status == EXIT_FAILURE && e.status != EXIT_SUCCESS
    ensures |e.stderr| >= 3 && e.stderr[|e.stderr| - 1] == '\n'
  {
    Exit(EXIT_FAILURE, CStr(progname) + ": " + CStr(message) + "\n")
  }

  /** The line fatal writes holds no NUL, and for strings without NUL it is
      "progname: message" followed by a newline. */
  lemma FatalLine(progname: string, message: string)
    ensures forall i :: 0 <= i < |Fatal(progname, message).stderr| ==> Fatal(progname, message).stderr[i] != '\0'
    ensures NoNul(progname) && NoNul(message) ==>
      Fatal(progname, message).stderr == progname + ": " + message + "\n"
  {
    CStrPrefix(progname);
    CStrPrefix(message);
    CStrWithoutNul(progname);
    CStrWithoutNul(message);
    var line := Fatal(progname, message).stderr;
    var p, m := CStr(progname), CStr(message);
    forall i | 0 <= i < |line|
      ensures line[i] != '\0'
    {
      if i < |p| {
        assert line[i] == p[i];
      } else if |p| + 2 <= i < |p| + 2 + |m| {
        assert line[i] == m[i - |p| - 2];
      }
    }
  }

  /** An error message with a NUL in it is written only up to that NUL. */
  lemma FatalStopsAtNul(progname: string, before: string, after: string)
    requires NoNul(before)
    ensures Fatal(progname, before + ['\0'] + after) == Fatal(progname, before)
  {
    CStrStopsAtNul(before, after);
    CStrWithoutNul(before);
  }

  /** main(argc, argv). An empty argv stands for argv[0] == NULL; `memoryOk` says whether
      lua_open could allocate a state. `trace` is what the engine was asked to do. */
  method Launch(fs: map<string, Image>, argv: seq<string>, memoryOk: bool,
                compile: seq<byte> -> Option<string>,
                execute: (seq<byte>, Option<map<int, string>>, seq<string>) -> Option<string>,
                stackRoom: nat)
    returns (exit: Exit, ghost trace: seq<Event>)
    ensures |argv| == 0 ==> exit == Fatal("srlua", "cannot locate this executable")
    ensures |argv| >= 1 && !memoryOk ==> exit == Fatal(argv[0], "not enough memory for state")
    ensures |argv| >= 1 && memoryOk ==>
      var b := BootSpec(LoadSpec(fs, argv[0], compile), argv, execute, stackRoom);
      exit == if b.err.None? then Exit(EXIT_SUCCESS, "") else Fatal(argv[0], b.err.value)
    ensures |argv| == 0 || !memoryOk ==> trace == []
    ensures |argv| >= 1 && memoryOk ==>
      trace == BootSpec(LoadSpec(fs, argv[0], compile), argv, execute, stackRoom).events
  {
    trace := [];
    if |argv| == 0 {
      return Fatal("srlua", "cannot locate this executable"), trace;
    }
    if !memoryOk {
      return Fatal(argv[0], "not enough memory for state"), trace;
    }
    var L := new Lua(compile, execute, stackRoom);
    var err := PMain(L, fs, argv);
    trace := L.trace;
    if err.Some? {
      return Fatal(argv[0], err.value), trace;
    }
    exit := Exit(EXIT_SUCCESS, "");
  }

  /** Libraries are registered with the collector stopped, between the stop and the
      restart, and before anything of the payload reaches the engine, whatever load ends in. */
  lemma LibrariesBeforePayload(loaded: Result<seq<byte>, LoadError>, argv: seq<string>,
                               execute: (seq<byte>, Option<map<int, string>>, seq<string>) -> Option<string>,
                               stackRoom: nat)
    requires |argv| >= 1
    ensures var ev := BootSpec(loaded, argv, execute, stackRoom).events;
      |ev| >= 3 && ev[0] == GcStop && ev[1] == OpenLibs(false) && ev[2] == GcRestart &&
      (forall i :: 3 <= i < |ev| ==> ev[i].LoadCalled? || ev[i].Loaded? || ev[i].SetArg? || ev[i].Called?) &&
      (loaded.Success? || loaded.error.Rejected? ==> |ev| >= 4 && ev[3] == LoadCalled(true)) &&
      (forall i :: 0 <= i < |ev| && ev[i].LoadCalled? ==> i == 3 && ev[i].gcRunning) &&
      (forall i :: 0 <= i < |ev| && ev[i].Loaded? ==> i == 4 && ev[3] == LoadCalled(true))
  {
  }

  /** A payload the engine rejects was handed to lua_load after the libraries, with the
      collector running, and pmain ends in the engine's own message. */
  lemma RejectedPayloadReachedEngine(message: string, argv: seq<string>,
                                     execute: (seq<byte>, Option<map<int, string>>, seq<string>) -> Option<string>,
                                     stackRoom: nat)
    requires |argv| >= 1
    ensures var b := BootSpec(Failure(Rejected(message)), argv, execute, stackRoom);
      b.events == [GcStop, OpenLibs(false), GcRestart, LoadCalled(true)] && b.err == Some(message)
  {
  }

  /** When loading succeeds and the arguments fit, `arg` maps i to argv[i] for every i,
      and the payload is called with exactly argv[1..], in order. */
  lemma ArgumentsForwarded(chunk: seq<byte>, argv: seq<string>,
                           execute: (seq<byte>, Option<map<int, string>>, seq<string>) -> Option<string>,
                           stackRoom: nat)
    requires |argv| >= 1 && |argv| - 1 <= stackRoom
    ensures var ev := BootSpec(Success(chunk), argv, execute, stackRoom).events;
      |ev| == 7 && ev[3] == LoadCalled(true) && ev[4] == Loaded(chunk) && ev[5].SetArg? && ev[6].Called? &&
      (forall i :: i in ev[5].table <==> 0 <= i < |argv|) &&
      (forall i :: 0 <= i < |argv| ==> ev[5].table[i] == argv[i]) &&
      ev[6].chunk == chunk && |ev[6].args| == |argv| - 1 &&
      (forall j :: 0 <= j < |argv| - 1 ==> ev[6].args[j] == argv[j + 1])
  {
  }

  /** Running `prog a b`: arg is {0: prog, 1: a, 2: b} and the payload receives ("a", "b"). */
  lemma ProgAB(chunk: seq<byte>, execute: (seq<byte>, Option<map<int, string>>, seq<string>) -> Option<string>,
               stackRoom: nat)
    requires stackRoom >= 2
    ensures var ev := BootSpec(Success(chunk), ["prog", "a", "b"], execute, stackRoom).events;
      ev[5] == SetArg(map[0 := "prog", 1 := "a", 2 := "b"]) && ev[6] == Called(chunk, ["a", "b"])
  {
    var argv := ["prog", "a", "b"];
    assert ArgTable(argv) == map[0 := "prog", 1 := "a", 2 := "b"];
    assert argv[1..] == ["a", "b"];
  }

  /** When the program's own file has a readable trailer without the signature, none of
      its bytes reach the engine: pmain stops after the libraries with
      "no Lua program found in <argv[0]>". */
  lemma NoProgramNeverRuns(fs: map<string, Image>, argv: seq<string>, compile: seq<byte> -> Option<string>,
                           execute: (seq<byte>, Option<map<int, string>>, seq<string>) -> Option<string>,
                           stackRoom: nat)
    requires |argv| >= 1 && argv[0] in fs
    requires TrailerReadable(fs[argv[0]])
    requires Trailer(fs[argv[0]])[..GLUELEN] != GLUESIG
    ensures var b := BootSpec(LoadSpec(fs, argv[0], compile), argv, execute, stackRoom);
      b.events == [GcStop, OpenLibs(false), GcRestart] &&
      b.err == Some("no Lua program found in " + argv[0])
  {
    NoProgramExactlyOnBadSignature(fs, argv[0], compile);
  }
}
