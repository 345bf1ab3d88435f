/** load(): open the program's own file, read the trailer from its last sizeof(Glue)
    bytes, check the signature, seek to the payload and stream it to Lua's loader. */
module Loader {
  import opened CTypes
  import opened Results
  import opened Glue
  import opened Stdio
  import opened Reader
  import opened Engine

  datatype Step = OpenStep | SeekStep | ReadStep

  /** Why loading stops: an I/O step failed on the named file, the file carries no
      signature, or Lua's loader rejected the payload with a message. */
  datatype LoadError = Cannot(step: Step, name: string) | NoProgram(name: string) | Rejected(message: string)

  function StepName(s: Step): string
  {
    match s
    case OpenStep => "open"
    case SeekStep => "seek"
    case ReadStep => "read"
  }

  /** The error message raised for each failure (without the strerror text). */
  function Message(e: LoadError): (m: string)
    ensures e.Rejected? ==> m == e.message
    ensures !e.Rejected? ==> |m| > |e.name| && m[|m| - |e.name|..] == e.name
    ensures e.Cannot? ==> "cannot " + StepName(e.step) + " " <= m
    ensures e.NoProgram? ==> "no Lua program found in " <= m
  {
    match e
    case Cannot(s, name) => "cannot " + StepName(s) + " " + name
    case NoProgram(name) => "no Lua program found in " + name
    case Rejected(m) => m
  }

  /** For one file, the message tells the failures apart: which step could not be done,
      or that the file carries no program. */
  lemma MessagesTellFailuresApart(e1: LoadError, e2: LoadError)
    requires !e1.Rejected? && !e2.Rejected? && e1.name == e2.name && e1 != e2
    ensures Message(e1) != Message(e2)
  {
    var m1, m2 := Message(e1), Message(e2);
    if e1.Cannot? && e2.Cannot? {
      assert m1[7] != m2[7];
    } else {
      assert m1[0] != m2[0];
    }
  }

  /** The last GLUE_SIZE bytes of a file. */
  function Trailer(img: Image): (raw: seq<byte>)
    requires |img.bytes| >= GLUE_SIZE
    ensures |raw| == GLUE_SIZE
  {
    img.bytes[|img.bytes| - GLUE_SIZE..]
  }

  /** What loading the file `name` of `fs` ends in: the payload text handed to the
      engine, or the first failing step. `compile` is the engine's verdict on a text. */
  function LoadSpec(fs: map<string, Image>, name: string, compile: seq<byte> -> Option<string>): Result<seq<byte>, LoadError>
  {
    if name !in fs then Failure(Cannot(OpenStep, name))
    else
      var img := fs[name];
      if |img.bytes| < GLUE_SIZE then Failure(Cannot(SeekStep, name))
      else if Available(img, |img.bytes| - GLUE_SIZE, GLUE_SIZE) != GLUE_SIZE then Failure(Cannot(ReadStep, name))
      else
        var t := Decode(Trailer(img));
        if !SigMatches(t) then Failure(NoProgram(name))
        else PayloadSpec(img, name, t, compile)
  }

  /** What loading ends in once the signature has matched: the seek to size1, then the
      engine's verdict on the payload text. */
  function PayloadSpec(img: Image, name: string, t: Glue, compile: seq<byte> -> Option<string>): Result<seq<byte>, LoadError>
  {
    if t.size1 < 0 then Failure(Cannot(SeekStep, name))
    else
      var text := Payload(img, t.size1, t.size2);
      match compile(text)
      case Some(m) => Failure(Rejected(m))
      case None => Success(text)
  }

  /** The requests load makes to the engine when it ends in `r`: the lua_load call once the
      payload is reached, and the compiled chunk lua_load leaves when the engine accepts it. */
  function LoadEvents(r: Result<seq<byte>, LoadError>, gcRunning: bool): seq<Event>
  {
    match r
    case Success(text) => [LoadCalled(gcRunning)] + [Loaded(text)]
    case Failure(e) => if e.Rejected? then [LoadCalled(gcRunning)] else []
  }

  /** load(L, name). `file` is the handle fopen gave (None when it failed); `pulled` is the
      blocks the engine's loader received. */
  method Load(L: Lua, fs: map<string, Image>, name: string)
    returns (r: Result<seq<byte>, LoadError>, file: Option<File>, ghost pulled: seq<seq<byte>>)
    modifies L`trace
    ensures r == LoadSpec(fs, name, L.compile)
    ensures L.trace == old(L.trace) + LoadEvents(r, L.gcRunning)
    ensures file.None? <==> name !in fs
    ensures file.Some? ==> fresh(file.value) && file.value.image == fs[name]
    ensures file.Some? ==> (file.value.isOpen <==> r.Failure?)
    ensures r.Failure? && !r.error.Rejected? ==> pulled == []
    ensures r.Success? ==> Flatten(pulled) == r.value
    ensures WellSized(pulled)
  {
    pulled := [];
    if name !in fs {
      return Failure(Cannot(OpenStep, name)), None, pulled;
    }
    var f := new File.Open(fs[name]);
    file := Some(f);
    // -sizeof(t) is converted to the long offset -GLUE_SIZE
    var ok := f.Seek(-(GLUE_SIZE as int), SeekEnd);
    if !ok {
      return Failure(Cannot(SeekStep, name)), file, pulled;
    }
    var raw := new byte[GLUE_SIZE];
    var got := f.Read(raw, GLUE_SIZE);
    if got != GLUE_SIZE {
      return Failure(Cannot(ReadStep, name)), file, pulled;
    }
    assert raw[..] == Trailer(f.image);
    var t := Decode(raw[..]);
    if !SigMatches(t) {
      return Failure(NoProgram(name)), file, pulled;
    }
    r, pulled := StreamPayload(L, f, name, t);
  }

  /** The rest of load(L, name) once the signature has matched: seek to the payload, let
      lua_load pull it through myget, and close the file if the engine accepts it. */
  method StreamPayload(L: Lua, f: File, name: string, t: Glue)
    returns (r: Result<seq<byte>, LoadError>, ghost pulled: seq<seq<byte>>)
    requires f.isOpen
    modifies L`trace, f`pos, f`isOpen
    ensures r == PayloadSpec(f.image, name, t, L.compile)
    ensures L.trace == old(L.trace) + LoadEvents(r, L.gcRunning)
    ensures f.isOpen <==> r.Failure?
    ensures r.Failure? && !r.error.Rejected? ==> pulled == []
    ensures r.Success? ==> Flatten(pulled) == r.value
    ensures WellSized(pulled)
  {
    pulled := [];
    var ok := f.Seek(t.size1, SeekSet);
    if !ok {
      return Failure(Cannot(SeekStep, name)), pulled;
    }
    var s := new State(f, t.size2);
    L.BeginLoad();
    var text;
    text, pulled := Pull(s);
    ChunkSizes(f.image, t.size1, t.size2);
    var verdict := L.compile(text);
    if verdict.Some? {
      return Failure(Rejected(verdict.value)), pulled;
    }
    L.PushChunk(text);
    f.Close();
    r := Success(text);
  }

  /** A file shorter than the trailer fails at the seek, never at the signature check. */
  lemma ShortFileFailsAtSeek(fs: map<string, Image>, name: string, compile: seq<byte> -> Option<string>)
    requires name in fs && |fs[name].bytes| < GLUE_SIZE
    ensures LoadSpec(fs, name, compile) == Failure(Cannot(SeekStep, name))
  {
  }

  /** The file holds a trailer and every byte of it can be read. */
  predicate TrailerReadable(img: Image)
  {
    |img.bytes| >= GLUE_SIZE && Readable(img, |img.bytes| - GLUE_SIZE, |img.bytes|)
  }

  /** Reading a readable trailer delivers all of it. */
  lemma TrailerRead(img: Image)
    requires TrailerReadable(img)
    ensures Available(img, |img.bytes| - GLUE_SIZE, GLUE_SIZE) == GLUE_SIZE
  {
    StopPastReadable(img, |img.bytes| - GLUE_SIZE, |img.bytes|);
  }

  /** On a file whose trailer can be read, loading reports "no Lua program" exactly when
      the first GLUELEN bytes of the trailer differ from GLUESIG. */
  lemma NoProgramExactlyOnBadSignature(fs: map<string, Image>, name: string, compile: seq<byte> -> Option<string>)
    requires name in fs && TrailerReadable(fs[name])
    ensures LoadSpec(fs, name, compile) == Failure(NoProgram(name)) <==> Trailer(fs[name])[..GLUELEN] != GLUESIG
  {
    TrailerRead(fs[name]);
  }

  /** A payload whose bytes can all be read comes out whole. */
  lemma {:induction false} WellFormedPayload(img: Image, t: Glue)
    requires 0 <= t.size1 && 0 <= t.size2 && Readable(img, t.size1, t.size1 + t.size2)
    ensures Payload(img, t.size1, t.size2) == img.bytes[t.size1..t.size1 + t.size2]
    ensures Flatten(Chunks(img, t.size1, t.size2)) == img.bytes[t.size1..t.size1 + t.size2]
  {
    ChunksArePayload(img, t.size1, t.size2);
    StopPastReadable(img, t.size1, t.size1 + t.size2);
    var p := Payload(img, t.size1, t.size2);
    assert |p| == t.size2;
    assert p == img.bytes[t.size1..t.size1 + t.size2];
  }

  /** Loading a file whose trailer is signed and whose payload range can be read hands the
      engine exactly file[size1 .. size1+size2). */
  lemma WellFormedFileLoads(fs: map<string, Image>, name: string, compile: seq<byte> -> Option<string>)
    requires name in fs && TrailerReadable(fs[name])
    requires var t := Decode(Trailer(fs[name]));
      SigMatches(t) && 0 <= t.size1 && 0 <= t.size2 && Readable(fs[name], t.size1, t.size1 + t.size2)
    requires var t := Decode(Trailer(fs[name]));
      compile(fs[name].bytes[t.size1..t.size1 + t.size2]) == None
    ensures var t := Decode(Trailer(fs[name]));
      LoadSpec(fs, name, compile) == Success(fs[name].bytes[t.size1..t.size1 + t.size2])
  {
    var img := fs[name];
    var t := Decode(Trailer(img));
    TrailerRead(img);
    WellFormedPayload(img, t);
  }

  /** A file composed as launcher ++ payload ++ trailer, readable from the payload on,
      loads exactly the payload. */
  lemma ComposedFileLoads(fs: map<string, Image>, name: string, compile: seq<byte> -> Option<string>,
                          launcher: seq<byte>, payload: seq<byte>)
    requires |launcher| + |payload| <= LONG_MAX && compile(payload) == None
    requires name in fs
    requires fs[name].bytes == launcher + payload + Encode(Glue(GLUESIG, |launcher|, |payload|))
    requires Readable(fs[name], |launcher|, |fs[name].bytes|)
    ensures LoadSpec(fs, name, compile) == Success(payload)
  {
    var t := Glue(GLUESIG, |launcher|, |payload|);
    var img := fs[name];
    assert Trailer(img) == Encode(t);
    DecodeEncode(t);
    assert img.bytes[|launcher|..|launcher| + |payload|] == payload;
    assert Readable(img, |launcher|, |launcher| + |payload|);
    WellFormedFileLoads(fs, name, compile);
  }

  /** A payload length that runs past the end of the file is not an error: the engine gets
      every byte from size1 to the end of the file (the trailer included), as if the payload
      ended there, because a short read only ends the stream. */
  lemma OverlongPayloadStopsAtEof(fs: map<string, Image>, name: string, compile: seq<byte> -> Option<string>)
    requires name in fs && TrailerReadable(fs[name])
    requires var t := Decode(Trailer(fs[name]));
      SigMatches(t) && 0 <= t.size1 <= |fs[name].bytes| < t.size1 + t.size2 &&
      Readable(fs[name], t.size1, |fs[name].bytes|)
    requires compile(fs[name].bytes[Decode(Trailer(fs[name])).size1..]) == None
    ensures LoadSpec(fs, name, compile) == Success(fs[name].bytes[Decode(Trailer(fs[name])).size1..])
  {
    var img := fs[name];
    var t := Decode(Trailer(img));
    TrailerRead(img);
    StopPastReadable(img, t.size1, |img.bytes|);
    if t.size1 < |img.bytes| {
      assert Payload(img, t.size1, t.size2) == img.bytes[t.size1..];
    } else {
      assert Payload(img, t.size1, t.size2) == [];
    }
  }

  /** A read error inside the payload is not an error either: the engine gets the bytes
      before the first unreadable one, as if the payload ended there. */
  lemma ReadErrorTruncatesPayload(fs: map<string, Image>, name: string, compile: seq<byte> -> Option<string>, b: nat)
    requires name in fs && TrailerReadable(fs[name])
    requires var t := Decode(Trailer(fs[name]));
      SigMatches(t) && 0 <= t.size1 <= b < t.size1 + t.size2 && b < |fs[name].bytes| &&
      b in fs[name].bad && Readable(fs[name], t.size1, b)
    requires compile(fs[name].bytes[Decode(Trailer(fs[name])).size1..b]) == None
    ensures LoadSpec(fs, name, compile) == Success(fs[name].bytes[Decode(Trailer(fs[name])).size1..b])
  {
    var img := fs[name];
    var t := Decode(Trailer(img));
    TrailerRead(img);
    StopAtBad(img, t.size1, b);
    if t.size1 < b {
      assert Payload(img, t.size1, t.size2) == img.bytes[t.size1..b];
    } else {
      assert Payload(img, t.size1, t.size2) == [];
    }
  }
}
