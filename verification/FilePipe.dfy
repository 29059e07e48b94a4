/** The file copy through a pipe of module3/practice1/practice1.c: a parent
    process emits commands and file chunks, a child process undoes the stream. */
module FilePipe {
  import opened Bytes
  import opened Sequences

  /** Paths are taken to name different files if they differ. */
  type Path = seq<Byte>
  type Disk = map<seq<Byte>, seq<Byte>>

  const CHUNK_SIZE := 256
  const BUF_LEN := 511  // characters a 512-byte buffer holds besides the zero

  const FILENAME := Ascii("prepare_for_filename")
  const SIZE := Ascii("prepare_for_size")
  const MESSAGE := Ascii("prepare_for_message")
  const END := Ascii("end_of_transmission")
  const COPY := Ascii(".copy")

  /** A C string, its terminator left out. */
  ghost predicate NoZero(s: seq<Byte>) {
    0 !in s
  }

  // ----- The stream the parent emits -----

  /** A file as the parent read it, in the pieces read() gave it. */
  datatype Sent = Sent(name: seq<Byte>, chunks: seq<seq<Byte>>)

  function Joined(chunks: seq<seq<Byte>>): seq<Byte> {
    if chunks == [] then [] else chunks[0] + Joined(chunks[1..])
  }

  /** An int in memory, low byte first. */
  function IntBytes(n: nat): seq<Byte>
    requires n <= CHUNK_SIZE
  {
    [n % 0x100, n / 0x100, 0, 0]
  }

  function IntOf(b: seq<Byte>): int
    requires |b| == 4
  {
    var u := b[0] as int + 0x100 * b[1] as int + 0x1_0000 * b[2] as int + 0x100_0000 * b[3] as int;
    if u < 0x8000_0000 then u else u - 0x1_0000_0000
  }

  function ChunkBytes(chunk: seq<Byte>): seq<Byte>
    requires |chunk| <= CHUNK_SIZE
  {
    SIZE + [0] + IntBytes(|chunk|) + (MESSAGE + [0] + chunk)
  }

  ghost predicate ChunksFit(chunks: seq<seq<Byte>>) {
    forall k :: 0 <= k < |chunks| ==> 1 <= |chunks[k]| <= CHUNK_SIZE
  }

  function ChunksBytes(chunks: seq<seq<Byte>>): seq<Byte>
    requires ChunksFit(chunks)
  {
    if chunks == [] then [] else ChunkBytes(chunks[0]) + ChunksBytes(chunks[1..])
  }

  function FileBytes(f: Sent): seq<Byte>
    requires ChunksFit(f.chunks)
  {
    FILENAME + [0] + (f.name + [0] + (ChunksBytes(f.chunks) + (SIZE + [0] + IntBytes(0))))
  }

  ghost predicate Sendable(files: seq<Sent>) {
    forall k :: 0 <= k < |files| ==> ChunksFit(files[k].chunks) && NoZero(files[k].name)
  }

  /** Everything before end_of_transmission. */
  function FilesBytes(files: seq<Sent>): seq<Byte>
    requires Sendable(files)
  {
    if files == [] then [] else FileBytes(files[0]) + FilesBytes(files[1..])
  }

  function StreamBytes(files: seq<Sent>): seq<Byte>
    requires Sendable(files)
  {
    FilesBytes(files) + (END + [0])
  }

  // ----- What the child makes of a stream -----

  /** The child's variables, the files on disk, and the names it opened so far. */
  datatype Child = Child(out: Option<seq<Byte>>, chunkSize: int, disk: Disk, names: seq<Path>)

  function StartChild(disk: Disk): Child {
    Child(None, -1, disk, [])
  }

  /** What read_string gives: the text up to a zero or a full buffer, and the
      bytes left; None while bytes are missing. */
  function TakeString(s: seq<Byte>, room: nat): Option<(seq<Byte>, seq<Byte>)> {
    if room == 0 then Some(([], s))
    else if s == [] then None
    else if s[0] == 0 then Some(([], s[1..]))
    else
      match TakeString(s[1..], room - 1)
      case None => None
      case Some((text, rest)) => Some(([s[0]] + text, rest))
  }

  /** One round of the child's loop. It waits while bytes are missing; Broken is
      a message without a size that fits the chunk buffer. */
  datatype Round = Waits | Broken | Done | Goes(child: Child, rest: seq<Byte>)

  /** open(<name>.copy, O_CREAT | O_TRUNC) */
  function Opened(c: Child, name: seq<Byte>): Child {
    c.(out := Some(name + COPY), disk := c.disk[name + COPY := []], names := c.names + [name + COPY])
  }

  function Sized(c: Child, size: int): Child {
    c.(chunkSize := size, out := if size == 0 then None else c.out)
  }

  function Written(c: Child, chunk: seq<Byte>): Child {
    if c.out.Some? && c.out.value in c.disk then
      c.(disk := c.disk[c.out.value := c.disk[c.out.value] + chunk])
    else c
  }

  function OneRound(c: Child, s: seq<Byte>): Round {
    match TakeString(s, BUF_LEN)
    case None => Waits
    case Some((cmd, rest)) =>
      if cmd == FILENAME then
        match TakeString(rest, BUF_LEN)
        case None => Waits
        case Some((name, rest)) => Goes(Opened(c, name), rest)
      else if cmd == SIZE then
        if |rest| < 4 then Waits else Goes(Sized(c, IntOf(rest[..4])), rest[4..])
      else if cmd == MESSAGE then
        if !(0 <= c.chunkSize <= CHUNK_SIZE) then Broken
        else if |rest| < c.chunkSize then Waits
        else Goes(Written(c, rest[..c.chunkSize]), rest[c.chunkSize..])
      else if cmd == END then Done
      else Goes(c, rest)
  }

  lemma {:induction false} TakeStringConsumes(s: seq<Byte>, room: nat)
    ensures TakeString(s, room).Some? && room > 0 ==> |TakeString(s, room).value.1| < |s|
    ensures TakeString(s, room).Some? ==> |TakeString(s, room).value.1| <= |s|
  {
    if room > 0 && s != [] && s[0] != 0 {
      TakeStringConsumes(s[1..], room - 1);
    }
  }

  lemma RoundConsumes(c: Child, s: seq<Byte>)
    ensures OneRound(c, s).Goes? ==> |OneRound(c, s).rest| < |s|
  {
    TakeStringConsumes(s, BUF_LEN);
    if TakeString(s, BUF_LEN).Some? {
      TakeStringConsumes(TakeString(s, BUF_LEN).value.1, BUF_LEN);
    }
  }

  /** How the child ends: stopped with what is left of the stream, or not. */
  datatype Outcome = Stopped(child: Child, rest: seq<Byte>) | Stuck(child: Child)

  function ChildRun(c: Child, s: seq<Byte>): Outcome
    decreases |s|
  {
    RoundConsumes(c, s);
    match OneRound(c, s)
    case Goes(c', rest) => ChildRun(c', rest)
    case Done => Stopped(c, TakeString(s, BUF_LEN).value.1)
    case _ => Stuck(c)
  }

  /** Some rounds take the child from one state and stream to another. */
  ghost predicate Reaches(c: Child, s: seq<Byte>, c': Child, s': seq<Byte>)
    decreases |s|
  {
    RoundConsumes(c, s);
    (c == c' && s == s')
    || (OneRound(c, s).Goes? && Reaches(OneRound(c, s).child, OneRound(c, s).rest, c', s'))
  }

  lemma {:induction false} ReachesTransitive(c: Child, s: seq<Byte>, c': Child, s': seq<Byte>, c'': Child, s'': seq<Byte>)
    requires Reaches(c, s, c', s') && Reaches(c', s', c'', s'')
    ensures Reaches(c, s, c'', s'')
    decreases |s|
  {
    RoundConsumes(c, s);
    if !(c == c' && s == s') {
      ReachesTransitive(OneRound(c, s).child, OneRound(c, s).rest, c', s', c'', s'');
    }
  }

  lemma {:induction false} ReachedRun(c: Child, s: seq<Byte>, c': Child, s': seq<Byte>)
    requires Reaches(c, s, c', s')
    ensures ChildRun(c, s) == ChildRun(c', s')
    decreases |s|
  {
    RoundConsumes(c, s);
    if !(c == c' && s == s') {
      ReachedRun(OneRound(c, s).child, OneRound(c, s).rest, c', s');
    }
  }

  lemma OneRoundReaches(c: Child, s: seq<Byte>)
    requires OneRound(c, s).Goes?
    ensures Reaches(c, s, OneRound(c, s).child, OneRound(c, s).rest)
  {
    RoundConsumes(c, s);
    var c', s' := OneRound(c, s).child, OneRound(c, s).rest;
    RoundConsumes(c', s');
    assert Reaches(c', s', c', s');
  }

  // ----- Bytes that come later -----

  lemma {:induction false} TakeStringMore(s: seq<Byte>, room: nat, t: seq<Byte>)
    requires TakeString(s, room).Some?
    ensures TakeString(s + t, room) == Some((TakeString(s, room).value.0, TakeString(s, room).value.1 + t))
  {
    if room > 0 && s[0] != 0 {
      assert (s + t)[1..] == s[1..] + t;
      TakeStringMore(s[1..], room - 1, t);
    } else if room > 0 {
      assert (s + t)[1..] == s[1..] + t;
    }
  }

  /** A round that can be made is the same round whatever the stream goes on with. */
  lemma RoundOfMore(c: Child, s: seq<Byte>, t: seq<Byte>)
    ensures OneRound(c, s).Goes? ==> OneRound(c, s + t) == Goes(OneRound(c, s).child, OneRound(c, s).rest + t)
    ensures OneRound(c, s).Done? ==> OneRound(c, s + t).Done?
  {
    match TakeString(s, BUF_LEN)
    case None =>
    case Some((cmd, rest)) =>
      TakeStringMore(s, BUF_LEN, t);
      if cmd == FILENAME {
        if TakeString(rest, BUF_LEN).Some? { TakeStringMore(rest, BUF_LEN, t); }
      } else if cmd == SIZE && |rest| >= 4 {
        assert (rest + t)[..4] == rest[..4] && (rest + t)[4..] == rest[4..] + t;
      } else if cmd == MESSAGE && 0 <= c.chunkSize <= |rest| {
        assert (rest + t)[..c.chunkSize] == rest[..c.chunkSize] && (rest + t)[c.chunkSize..] == rest[c.chunkSize..] + t;
      }
  }

  lemma {:induction false} ReachesMore(c: Child, s: seq<Byte>, c': Child, s': seq<Byte>, t: seq<Byte>)
    requires Reaches(c, s, c', s')
    ensures Reaches(c, s + t, c', s' + t)
    decreases |s|
  {
    RoundConsumes(c, s);
    if !(c == c' && s == s') {
      RoundOfMore(c, s, t);
      ReachesMore(OneRound(c, s).child, OneRound(c, s).rest, c', s', t);
    }
  }

  lemma {:induction false} TakeStringInverse(s: seq<Byte>, room: nat)
    requires TakeString(s, room).Some? && |TakeString(s, room).value.0| < room
    ensures var (text, rest) := TakeString(s, room).value; s == text + [0] + rest
  {
    assert s == [s[0]] + s[1..];
    if s[0] != 0 {
      TakeStringInverse(s[1..], room - 1);
      var (text, rest) := TakeString(s[1..], room - 1).value;
      assert [s[0]] + (text + [0] + rest) == [s[0]] + text + [0] + rest;
    }
  }

  /** The child stops at the end command only. */
  lemma DoneIsEnd(c: Child, s: seq<Byte>)
    requires OneRound(c, s).Done?
    ensures s == END + [0] + TakeString(s, BUF_LEN).value.1
  {
    CommandsAreStrings();
    TakeStringInverse(s, BUF_LEN);
  }

  // ----- The child undoes the parent's stream -----

  lemma CommandsAreStrings()
    ensures NoZero(FILENAME) && |FILENAME| == 20
    ensures NoZero(SIZE) && |SIZE| == 16
    ensures NoZero(MESSAGE) && |MESSAGE| == 19
    ensures NoZero(END) && |END| == 19
    ensures MESSAGE != END
  {
    assert MESSAGE[0] != END[0];
  }

  /** read_string gives back a string of at most 511 characters; one of exactly
      511 leaves its zero in the stream, a longer one also its tail. */
  lemma {:induction false} TakeStringOf(text: seq<Byte>, rest: seq<Byte>, room: nat)
    requires NoZero(text)
    ensures |text| < room ==> TakeString(text + [0] + rest, room) == Some((text, rest))
    ensures |text| >= room ==> TakeString(text + [0] + rest, room) == Some((text[..room], text[room..] + [0] + rest))
  {
    var s := text + [0] + rest;
    if text == [] {
      assert s[1..] == rest;
      if room == 0 { assert s == text[0..] + [0] + rest; }
    } else if room == 0 {
      assert text[..0] == [] && text[0..] == text;
    } else {
      assert s[1..] == text[1..] + [0] + rest && text == [text[0]] + text[1..];
      TakeStringOf(text[1..], rest, room - 1);
      if |text| >= room {
        assert text[..room] == [text[0]] + text[1..][..room - 1] && text[room..] == text[1..][room - 1..];
      }
    }
  }

  lemma FileNameRound(c: Child, name: seq<Byte>, s: seq<Byte>)
    requires NoZero(name)
    ensures |name| < BUF_LEN ==> OneRound(c, FILENAME + [0] + (name + [0] + s)) == Goes(Opened(c, name), s)
    ensures |name| >= BUF_LEN ==>
      OneRound(c, FILENAME + [0] + (name + [0] + s)) == Goes(Opened(c, name[..BUF_LEN]), name[BUF_LEN..] + [0] + s)
  {
    CommandsAreStrings();
    TakeStringOf(FILENAME, name + [0] + s, BUF_LEN);
    TakeStringOf(name, s, BUF_LEN);
  }

  /** The zero a name of 511 characters leaves behind reads as an empty command. */
  lemma EmptyCommandRound(c: Child, s: seq<Byte>)
    ensures OneRound(c, [0] + s) == Goes(c, s)
  {
    CommandsAreStrings();
    TakeStringOf([], s, BUF_LEN);
    assert [] + [0] + s == [0] + s;
  }

  lemma SizeRound(c: Child, n: nat, s: seq<Byte>)
    requires n <= CHUNK_SIZE
    ensures OneRound(c, SIZE + [0] + IntBytes(n) + s) == Goes(Sized(c, n), s)
  {
    CommandsAreStrings();
    TakeStringOf(SIZE, IntBytes(n) + s, BUF_LEN);
    assert SIZE + [0] + IntBytes(n) + s == SIZE + [0] + (IntBytes(n) + s);
    assert (IntBytes(n) + s)[..4] == IntBytes(n) && (IntBytes(n) + s)[4..] == s;
  }

  lemma MessageRound(c: Child, chunk: seq<Byte>, s: seq<Byte>)
    requires c.chunkSize == |chunk| <= CHUNK_SIZE
    ensures OneRound(c, MESSAGE + [0] + chunk + s) == Goes(Written(c, chunk), s)
  {
    CommandsAreStrings();
    TakeStringOf(MESSAGE, chunk + s, BUF_LEN);
    assert MESSAGE + [0] + chunk + s == MESSAGE + [0] + (chunk + s);
    assert (chunk + s)[..|chunk|] == chunk && (chunk + s)[|chunk|..] == s;
  }

  lemma EndRound(c: Child, s: seq<Byte>)
    ensures OneRound(c, END + [0] + s).Done? && ChildRun(c, END + [0] + s) == Stopped(c, s)
  {
    CommandsAreStrings();
    TakeStringOf(END, s, BUF_LEN);
  }

  lemma ReachChunk(c: Child, chunk: seq<Byte>, s: seq<Byte>)
    requires 1 <= |chunk| <= CHUNK_SIZE
    ensures Reaches(c, ChunkBytes(chunk) + s, Written(Sized(c, |chunk|), chunk), s)
  {
    var m, sized := MESSAGE + [0] + chunk, Sized(c, |chunk|);
    assert ChunkBytes(chunk) + s == SIZE + [0] + IntBytes(|chunk|) + (m + s);
    SizeRound(c, |chunk|, m + s);
    OneRoundReaches(c, ChunkBytes(chunk) + s);
    MessageRound(sized, chunk, s);
    OneRoundReaches(sized, m + s);
    ReachesTransitive(c, ChunkBytes(chunk) + s, sized, m + s, Written(sized, chunk), s);
  }

  /** The child after the chunks of the open file. */
  function Filled(c: Child, chunks: seq<seq<Byte>>): Child
    requires c.out.Some? && c.out.value in c.disk
  {
    c.(chunkSize := if chunks == [] then c.chunkSize else |chunks[|chunks| - 1]|,
       disk := c.disk[c.out.value := c.disk[c.out.value] + Joined(chunks)])
  }

  lemma FilledFromFront(c: Child, chunks: seq<seq<Byte>>)
    requires c.out.Some? && c.out.value in c.disk && chunks != []
    ensures Filled(Written(Sized(c, 1), chunks[0]).(chunkSize := |chunks[0]|), chunks[1..]) == Filled(c, chunks)
  {
    var was := c.disk[c.out.value];
    assert was + chunks[0] + Joined(chunks[1..]) == was + Joined(chunks);
    assert c.disk[c.out.value := was + chunks[0]][c.out.value := was + Joined(chunks)] == c.disk[c.out.value := was + Joined(chunks)];
  }

  /** All chunks of a file end up behind what its copy holds. */
  lemma {:induction false} ReachChunks(c: Child, chunks: seq<seq<Byte>>, s: seq<Byte>)
    requires ChunksFit(chunks) && c.out.Some? && c.out.value in c.disk
    ensures Reaches(c, ChunksBytes(chunks) + s, Filled(c, chunks), s)
    decreases |chunks|
  {
    if chunks == [] {
      assert ChunksBytes(chunks) + s == s;
      assert c.disk[c.out.value] + [] == c.disk[c.out.value];
      assert c.disk[c.out.value := c.disk[c.out.value]] == c.disk;
    } else {
      var rest, c' := ChunksBytes(chunks[1..]) + s, Written(Sized(c, |chunks[0]|), chunks[0]);
      assert ChunksBytes(chunks) + s == ChunkBytes(chunks[0]) + rest;
      ReachChunk(c, chunks[0], rest);
      ReachChunks(c', chunks[1..], s);
      FilledFromFront(c, chunks);
      ReachesTransitive(c, ChunkBytes(chunks[0]) + rest, c', rest, Filled(c, chunks), s);
    }
  }

  /** The child after a whole file with a name that fits. */
  function Copied(c: Child, f: Sent): Child {
    c.(out := None, chunkSize := 0, disk := c.disk[f.name + COPY := Joined(f.chunks)], names := c.names + [f.name + COPY])
  }

  lemma Nested(a: seq<Byte>, b: seq<Byte>, c: seq<Byte>, d: seq<Byte>, e: seq<Byte>)
    ensures a + (b + (c + d)) + e == a + (b + (c + (d + e)))
  {
  }

  lemma Chained(a: seq<Byte>, b: seq<Byte>, c: seq<Byte>, d: seq<Byte>, e: seq<Byte>, f: seq<Byte>)
    ensures a + b + c + d + e + f == a + (b + (c + (d + (e + f))))
  {
  }

  lemma ReachFile(c: Child, f: Sent, s: seq<Byte>)
    requires ChunksFit(f.chunks) && NoZero(f.name) && |f.name| <= BUF_LEN
    ensures Reaches(c, FileBytes(f) + s, Copied(c, f), s)
  {
    var close := SIZE + [0] + IntBytes(0);
    var tail := ChunksBytes(f.chunks) + (close + s);
    var named, filled := Opened(c, f.name), Filled(Opened(c, f.name), f.chunks);
    Nested(FILENAME + [0], f.name + [0], ChunksBytes(f.chunks), close, s);
    ReachOpening(c, f.name, tail);
    ReachChunks(named, f.chunks, close + s);
    SizeRound(filled, 0, s);
    OneRoundReaches(filled, close + s);
    CopiedInSteps(c, f);
    ReachesTransitive(named, tail, filled, close + s, Copied(c, f), s);
    ReachesTransitive(c, FileBytes(f) + s, named, tail, Copied(c, f), s);
  }

  lemma ReachOpening(c: Child, name: seq<Byte>, tail: seq<Byte>)
    requires NoZero(name) && |name| <= BUF_LEN
    ensures Reaches(c, FILENAME + [0] + (name + [0] + tail), Opened(c, name), tail)
  {
    var s := FILENAME + [0] + (name + [0] + tail);
    FileNameRound(c, name, tail);
    OneRoundReaches(c, s);
    if |name| == BUF_LEN {
      assert name[..BUF_LEN] == name && name[BUF_LEN..] == [];
      assert [] + [0] + tail == [0] + tail;
      EmptyCommandRound(Opened(c, name), tail);
      OneRoundReaches(Opened(c, name), [0] + tail);
      ReachesTransitive(c, s, Opened(c, name), [0] + tail, Opened(c, name), tail);
    }
  }

  lemma CopiedInSteps(c: Child, f: Sent)
    ensures Sized(Filled(Opened(c, f.name), f.chunks), 0) == Copied(c, f)
  {
    var copy := f.name + COPY;
    assert [] + Joined(f.chunks) == Joined(f.chunks);
    assert c.disk[copy := []][copy := Joined(f.chunks)] == c.disk[copy := Joined(f.chunks)];
  }

  lemma Regrouped(a: seq<Byte>, b: seq<Byte>, c: seq<Byte>, d: seq<Byte>)
    ensures a + b + c + d == a + (b + c + d)
    ensures a + b + (c + d) == a + (b + c + d)
    ensures a + b + c == a + (b + c)
  {
  }

  /** The child after all files, if every name fits. */
  function AllCopied(c: Child, files: seq<Sent>): Child
    decreases |files|
  {
    if files == [] then c else AllCopied(Copied(c, files[0]), files[1..])
  }

  ghost predicate NamesFit(files: seq<Sent>) {
    forall k :: 0 <= k < |files| ==> |files[k].name| <= BUF_LEN
  }

  lemma {:induction false} RunStream(c: Child, files: seq<Sent>, s: seq<Byte>)
    requires Sendable(files) && NamesFit(files)
    ensures ChildRun(c, StreamBytes(files) + s) == Stopped(AllCopied(c, files), s)
    decreases |files|
  {
    if files == [] {
      assert StreamBytes(files) + s == END + [0] + s;
      EndRound(c, s);
    } else {
      var rest := StreamBytes(files[1..]) + s;
      Regrouped(FileBytes(files[0]), FilesBytes(files[1..]), END + [0], s);
      ReachFile(c, files[0], rest);
      ReachedRun(c, FileBytes(files[0]) + rest, Copied(c, files[0]), rest);
      RunStream(Copied(c, files[0]), files[1..], s);
    }
  }

  /** No round takes back a name. */
  lemma {:induction false} NamesGrow(c: Child, s: seq<Byte>)
    ensures c.names <= ChildRun(c, s).child.names
    decreases |s|
  {
    RoundConsumes(c, s);
    if OneRound(c, s).Goes? {
      NamesGrow(OneRound(c, s).child, OneRound(c, s).rest);
    }
  }

  /** The child run on the parent's stream gets back every name and its chunks,
      consumes the whole stream and stops at end_of_transmission, if and only if
      no name is longer than 511 characters. */
  lemma {:induction false} CopiesIffNamesFit(c: Child, files: seq<Sent>, s: seq<Byte>)
    requires Sendable(files)
    ensures ChildRun(c, StreamBytes(files) + s) == Stopped(AllCopied(c, files), s) <==> NamesFit(files)
    decreases |files|
  {
    if NamesFit(files) {
      RunStream(c, files, s);
    } else {
      var rest := StreamBytes(files[1..]) + s;
      Regrouped(FileBytes(files[0]), FilesBytes(files[1..]), END + [0], s);
      if |files[0].name| <= BUF_LEN {
        ReachFile(c, files[0], rest);
        ReachedRun(c, FileBytes(files[0]) + rest, Copied(c, files[0]), rest);
        assert forall k :: 0 <= k < |files[1..]| ==> files[1..][k] == files[k + 1];
        CopiesIffNamesFit(Copied(c, files[0]), files[1..], s);
      } else {
        LongNameIsCut(c, files, s);
      }
    }
  }

  lemma LongNameIsCut(c: Child, files: seq<Sent>, s: seq<Byte>)
    requires Sendable(files) && files != [] && |files[0].name| > BUF_LEN
    ensures ChildRun(c, StreamBytes(files) + s).child.names != AllCopied(c, files).names
  {
    var name := files[0].name;
    var rest := StreamBytes(files[1..]) + s;
    var tail := ChunksBytes(files[0].chunks) + (SIZE + [0] + IntBytes(0) + rest);
    Regrouped(FileBytes(files[0]), FilesBytes(files[1..]), END + [0], s);
    Nested(FILENAME + [0], name + [0], ChunksBytes(files[0].chunks), SIZE + [0] + IntBytes(0), rest);
    FileNameRound(c, name, tail);
    NamesGrow(Opened(c, name[..BUF_LEN]), name[BUF_LEN..] + [0] + tail);
    AllCopiedNames(Copied(c, files[0]), files[1..]);
    var n := |c.names|;
    assert Opened(c, name[..BUF_LEN]).names[n] == name[..BUF_LEN] + COPY;
    assert Copied(c, files[0]).names[n] == name + COPY;
    assert |name[..BUF_LEN] + COPY| < |name + COPY|;
  }

  lemma {:induction false} AllCopiedNames(c: Child, files: seq<Sent>)
    ensures c.names <= AllCopied(c, files).names
    decreases |files|
  {
    if files != [] { AllCopiedNames(Copied(c, files[0]), files[1..]); }
  }

  // ----- The processes -----

  function Prefixed(text: seq<Byte>, taken: Option<(seq<Byte>, seq<Byte>)>): Option<(seq<Byte>, seq<Byte>)> {
    match taken
    case None => None
    case Some((more, rest)) => Some((text + more, rest))
  }

  /** read_string: the buffer holds 511 characters and the zero. None stands for
      the result of a read that found no byte. */
  method ReadString(pipe: Stream) returns (text: Option<seq<Byte>>)
    modifies pipe
    ensures match TakeString(old(pipe.data), BUF_LEN)
      case None => text == None && pipe.data == []
      case Some((buf, rest)) => text == Some(buf) && pipe.data == rest
  {
    var buf := [];
    ghost var got := TakeString(pipe.data, BUF_LEN);
    assert Prefixed([], got) == got by {
      if got.Some? { assert [] + got.value.0 == got.value.0; }
    }
    while |buf| < BUF_LEN
      invariant |buf| <= BUF_LEN
      invariant got == Prefixed(buf, TakeString(pipe.data, BUF_LEN - |buf|))
    {
      ghost var before := pipe.data;
      var r := pipe.Read(1);
      if r == [] {
        return None;
      }
      assert before == [r[0]] + pipe.data;
      if r[0] == 0 {
        assert buf + [] == buf;
        return Some(buf);
      }
      ghost var more := TakeString(pipe.data, BUF_LEN - |buf| - 1);
      if more.Some? {
        assert buf + ([r[0]] + more.value.0) == buf + r + more.value.0;
      }
      buf := buf + r;
    }
    assert buf + [] == buf;
    text := Some(buf);
  }

  /** read_exact, over any splitting of the stream into reads: n, or the 0 of a
      read that found no byte. */
  method ReadExact(pipe: Stream, n: nat) returns (r: int, buf: seq<Byte>)
    modifies pipe
    ensures |old(pipe.data)| >= n ==> r == n && buf == old(pipe.data)[..n] && pipe.data == old(pipe.data)[n..]
    ensures |old(pipe.data)| < n ==> r == 0 && buf == old(pipe.data) && pipe.data == []
  {
    buf := [];
    while |buf| < n
      invariant |buf| <= n && buf + pipe.data == old(pipe.data)
    {
      var bytes := pipe.Read(n - |buf|);
      if bytes == [] {
        return 0, buf;
      }
      buf := buf + bytes;
    }
    r := n;
  }

  /** child_process, up to the point where it stops, waits for bytes that are not
      there, or is told to read a chunk into a buffer that does not hold it. */
  method ChildProcess(pipe: Stream, disk: Disk) returns (o: Outcome)
    modifies pipe
    ensures o == ChildRun(StartChild(disk), old(pipe.data))
    ensures o.Stopped? ==> pipe.data == o.rest
  {
    var c := StartChild(disk);
    while true
      invariant ChildRun(c, pipe.data) == ChildRun(StartChild(disk), old(pipe.data))
      decreases |pipe.data|
    {
      RoundConsumes(c, pipe.data);
      var inbuf := ReadString(pipe);
      if inbuf == None {
        return Stuck(c);
      }
      if inbuf.value == FILENAME {
        var name := ReadString(pipe);
        if name == None {
          return Stuck(c);
        }
        c := Opened(c, name.value);
      } else if inbuf.value == SIZE {
        var r, size := ReadExact(pipe, 4);
        if r == 0 {
          return Stuck(c);
        }
        c := Sized(c, IntOf(size));
      } else if inbuf.value == MESSAGE {
        if !(0 <= c.chunkSize <= CHUNK_SIZE) {
          return Stuck(c);
        }
        var r, chunk := ReadExact(pipe, c.chunkSize);
        if r < c.chunkSize {
          return Stuck(c);
        }
        c := Written(c, chunk);
      } else if inbuf.value == END {
        return Stopped(c, pipe.data);
      }
    }
  }

  /** The paths that can be opened. */
  function Listed(paths: seq<Path>, disk: Disk): seq<Path> {
    if paths == [] then []
    else Listed(paths[..|paths| - 1], disk) + if paths[|paths| - 1] in disk then [paths[|paths| - 1]] else []
  }

  lemma {:induction false} ListedIsIn(paths: seq<Path>, disk: Disk)
    ensures forall p :: p in Listed(paths, disk) <==> p in paths && p in disk
  {
    if paths != [] {
      ListedIsIn(paths[..|paths| - 1], disk);
      assert paths == paths[..|paths| - 1] + [paths[|paths| - 1]];
    }
  }

  /** What was sent are these files, name by name and byte by byte. */
  ghost predicate Are(sent: seq<Sent>, names: seq<Path>, disk: Disk) {
    && |sent| == |names|
    && forall k :: 0 <= k < |sent| ==>
         sent[k].name == names[k] && names[k] in disk && Joined(sent[k].chunks) == disk[names[k]]
  }

  lemma {:induction false} FilesAppend(files: seq<Sent>, f: Sent)
    requires Sendable(files) && ChunksFit(f.chunks) && NoZero(f.name)
    ensures Sendable(files + [f]) && FilesBytes(files + [f]) == FilesBytes(files) + FileBytes(f)
    decreases |files|
  {
    assert [f][0] == f && [f][1..] == [];
    if files == [] {
      assert files + [f] == [f];
    } else {
      assert (files + [f])[1..] == files[1..] + [f];
      FilesAppend(files[1..], f);
      Regrouped(FileBytes(files[0]), FilesBytes(files[1..]), FileBytes(f), []);
    }
  }

  lemma {:induction false} JoinedAppend(chunks: seq<seq<Byte>>, chunk: seq<Byte>)
    ensures Joined(chunks + [chunk]) == Joined(chunks) + chunk
  {
    assert [chunk][0] == chunk && [chunk][1..] == [];
    if chunks == [] {
      assert chunks + [chunk] == [chunk];
    } else {
      assert (chunks + [chunk])[1..] == chunks[1..] + [chunk];
      JoinedAppend(chunks[1..], chunk);
    }
  }

  lemma {:induction false} ChunksAppend(chunks: seq<seq<Byte>>, chunk: seq<Byte>)
    requires ChunksFit(chunks) && 1 <= |chunk| <= CHUNK_SIZE
    ensures ChunksBytes(chunks + [chunk]) == ChunksBytes(chunks) + ChunkBytes(chunk)
    decreases |chunks|
  {
    assert [chunk][0] == chunk && [chunk][1..] == [];
    if chunks == [] {
      assert chunks + [chunk] == [chunk];
    } else {
      assert (chunks + [chunk])[1..] == chunks[1..] + [chunk];
      ChunksAppend(chunks[1..], chunk);
      Regrouped(ChunkBytes(chunks[0]), ChunksBytes(chunks[1..]), ChunkBytes(chunk), []);
    }
  }

  lemma ReadOneMore(before: seq<Byte>, chunks: seq<seq<Byte>>, chunk: seq<Byte>, contents: seq<Byte>, n: nat)
    requires ChunksFit(chunks) && 1 <= |chunk| <= CHUNK_SIZE
    requires n <= |contents| && Joined(chunks) == contents[..n] && chunk <= contents[n..]
    ensures ChunksFit(chunks + [chunk]) && Joined(chunks + [chunk]) == contents[..n + |chunk|]
    ensures before + ChunksBytes(chunks) + ChunkBytes(chunk) == before + ChunksBytes(chunks + [chunk])
  {
    ChunksAppend(chunks, chunk);
    JoinedAppend(chunks, chunk);
    Regrouped(before, ChunksBytes(chunks), ChunkBytes(chunk), []);
    assert contents[..n] + contents[n..][..|chunk|] == contents[..n + |chunk|];
  }

  /** write() of the parent: the pipe takes all of it. */
  method Emit(pipe: Stream, bytes: seq<Byte>)
    modifies pipe
    ensures pipe.data == old(pipe.data) + bytes
  {
    pipe.data := pipe.data + bytes;
  }

  /** send_command */
  method SendCommand(pipe: Stream, cmd: seq<Byte>)
    modifies pipe
    ensures pipe.data == old(pipe.data) + (cmd + [0])
  {
    Emit(pipe, cmd + [0]);
  }

  /** One round of the copy loop of parent_process. */
  method EmitChunk(pipe: Stream, chunk: seq<Byte>)
    requires 1 <= |chunk| <= CHUNK_SIZE
    modifies pipe
    ensures pipe.data == old(pipe.data) + ChunkBytes(chunk)
  {
    ghost var was := pipe.data;
    SendCommand(pipe, SIZE);
    Emit(pipe, IntBytes(|chunk|));
    SendCommand(pipe, MESSAGE);
    Emit(pipe, chunk);
    assert pipe.data == was + (SIZE + [0] + IntBytes(|chunk|) + (MESSAGE + [0] + chunk));
  }

  /** The copy loop of parent_process over one open file; every read of the
      file returns from 1 to 256 bytes until there are none. */
  method EmitChunks(pipe: Stream, contents: seq<Byte>) returns (ghost chunks: seq<seq<Byte>>)
    modifies pipe
    ensures ChunksFit(chunks) && Joined(chunks) == contents
    ensures pipe.data == old(pipe.data) + ChunksBytes(chunks)
  {
    var file := new Stream();
    file.data := contents;
    chunks := [];
    ghost var n := 0;
    var chunk := file.Read(CHUNK_SIZE);
    while chunk != []
      invariant ChunksFit(chunks) && |chunk| <= CHUNK_SIZE
      invariant n <= |contents| && Joined(chunks) == contents[..n] && chunk + file.data == contents[n..]
      invariant chunk == [] ==> file.data == []
      invariant pipe.data == old(pipe.data) + ChunksBytes(chunks)
      decreases |contents| - n
    {
      EmitChunk(pipe, chunk);
      ReadOneMore(old(pipe.data), chunks, chunk, contents, n);
      chunks := chunks + [chunk];
      assert contents[n..][|chunk|..] == file.data;
      n := n + |chunk|;
      chunk := file.Read(CHUNK_SIZE);
    }
  }

  /** What parent_process does with a file it could open. */
  method EmitFile(pipe: Stream, path: Path, contents: seq<Byte>) returns (ghost sent: Sent)
    modifies pipe
    ensures ChunksFit(sent.chunks) && sent.name == path && Joined(sent.chunks) == contents
    ensures pipe.data == old(pipe.data) + FileBytes(sent)
  {
    ghost var was := pipe.data;
    SendCommand(pipe, FILENAME);
    Emit(pipe, path + [0]);
    ghost var chunks := EmitChunks(pipe, contents);
    SendCommand(pipe, SIZE);
    Emit(pipe, IntBytes(0));
    sent := Sent(path, chunks);
    Chained(was, FILENAME + [0], path + [0], ChunksBytes(chunks), SIZE + [0], IntBytes(0));
  }

  /** One more file sent. */
  lemma SentOneMore(before: seq<Byte>, sent: seq<Sent>, f: Sent, names: seq<Path>, disk: Disk)
    requires Sendable(sent) && ChunksFit(f.chunks) && NoZero(f.name) && Are(sent, names, disk)
    requires f.name in disk && Joined(f.chunks) == disk[f.name]
    ensures Sendable(sent + [f]) && Are(sent + [f], names + [f.name], disk)
    ensures before + FilesBytes(sent) + FileBytes(f) == before + FilesBytes(sent + [f])
  {
    FilesAppend(sent, f);
    Regrouped(before, FilesBytes(sent), FileBytes(f), []);
  }

  /** parent_process, after the child has said that it is ready. */
  method ParentProcess(pipe: Stream, paths: seq<Path>, disk: Disk) returns (ghost sent: seq<Sent>)
    requires forall k :: 0 <= k < |paths| ==> NoZero(paths[k])
    modifies pipe
    ensures Sendable(sent) && Are(sent, Listed(paths, disk), disk)
    ensures pipe.data == old(pipe.data) + StreamBytes(sent)
  {
    sent := [];
    var i := 0;
    while i < |paths|
      invariant 0 <= i <= |paths| && Sendable(sent) && Are(sent, Listed(paths[..i], disk), disk)
      invariant pipe.data == old(pipe.data) + FilesBytes(sent)
    {
      assert paths[..i + 1][..i] == paths[..i];
      if paths[i] in disk {
        ghost var f := EmitFile(pipe, paths[i], disk[paths[i]]);
        SentOneMore(old(pipe.data), sent, f, Listed(paths[..i], disk), disk);
        sent := sent + [f];
      }
      i := i + 1;
    }
    assert paths[..|paths|] == paths;
    SendCommand(pipe, END);
    Regrouped(old(pipe.data), FilesBytes(sent), END + [0], []);
  }

  /** Every path of the list that could be opened has a copy equal to it as it
      was, and no other file has changed. */
  ghost predicate Right(was: Disk, paths: seq<Path>, now: Disk) {
    && (forall p :: p in paths && p in was ==> p + COPY in now && now[p + COPY] == was[p])
    && (forall q :: (forall p :: p in paths && p in was ==> q != p + COPY) ==>
          (q in now <==> q in was) && (q in was ==> now[q] == was[q]))
  }

  lemma {:induction false} AllCopiedDisk(c: Child, sent: seq<Sent>, names: seq<Path>, was: Disk, q: Path)
    requires Are(sent, names, was)
    ensures var now := AllCopied(c, sent).disk;
      && (forall p :: p in names && q == p + COPY ==> q in now && now[q] == was[p])
      && ((forall p :: p in names ==> q != p + COPY) ==> (q in now <==> q in c.disk) && (q in now ==> now[q] == c.disk[q]))
    decreases |sent|
  {
    if sent != [] {
      assert names == [names[0]] + names[1..];
      AllCopiedDisk(Copied(c, sent[0]), sent[1..], names[1..], was, q);
      forall p | p in names && q == p + COPY ensures q in AllCopied(c, sent).disk && AllCopied(c, sent).disk[q] == was[p] {
        if p !in names[1..] {
          assert forall p' :: p' in names[1..] && q == p' + COPY ==> p' == (p' + COPY)[..|q| - |COPY|] == p;
        }
      }
    }
  }

  /** The copies the child makes of what the parent sent are right. */
  lemma AllCopiedRight(paths: seq<Path>, sent: seq<Sent>, was: Disk)
    requires Are(sent, Listed(paths, was), was)
    ensures Right(was, paths, AllCopied(StartChild(was), sent).disk)
  {
    var names, now := Listed(paths, was), AllCopied(StartChild(was), sent).disk;
    ListedIsIn(paths, was);
    forall p | p in paths && p in was ensures p + COPY in now && now[p + COPY] == was[p] {
      assert p in names;
      AllCopiedDisk(StartChild(was), sent, names, was, p + COPY);
    }
    forall q | forall p :: p in paths && p in was ==> q != p + COPY
      ensures (q in now <==> q in was) && (q in was ==> now[q] == was[q])
    {
      AllCopiedDisk(StartChild(was), sent, names, was, q);
    }
  }

  /** The parent run to its end, then the child: for every list of paths of at
      most 511 characters, any contents and any splitting of them into reads,
      the child makes each copy equal to its source, changes nothing else, and
      leaves nothing in the pipe. */
  method CopyFiles(paths: seq<Path>, disk: Disk) returns (o: Outcome)
    requires forall k :: 0 <= k < |paths| ==> NoZero(paths[k]) && |paths[k]| <= BUF_LEN
    ensures o.Stopped? && o.rest == [] && Right(disk, paths, o.child.disk)
  {
    var pipe := new Stream();
    ghost var sent := ParentProcess(pipe, paths, disk);
    ListedIsIn(paths, disk);
    assert pipe.data == StreamBytes(sent) + [];
    assert forall k :: 0 <= k < |sent| ==> Listed(paths, disk)[k] in paths;
    RunStream(StartChild(disk), sent, []);
    o := ChildProcess(pipe, disk);
    AllCopiedRight(paths, sent, disk);
  }
}
