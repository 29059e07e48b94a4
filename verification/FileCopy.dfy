/** The parent and the child of module3/practice1/practice1.c at work together:
    a transition system over one disk and one pipe, whose runs interleave the
    parent's opening and reading of files with the child's rounds in every way. */
module FileCopy {
  import opened Bytes
  import opened FilePipe
  import opened Sequences

  // ----- State and transitions -----

  /** The file the parent has open, in the chunks read so far. */
  datatype Source = Source(path: Path, chunks: seq<seq<Byte>>) {
    function Offset(): nat {
      |Joined(chunks)|
    }
  }

  /** The child, which carries the disk; the pipe; whether the child has stopped;
      the parent's loop index and open file, and whether it has ended; and, for
      the statements below only, the files it has sent and all it has written. */
  datatype World = World(
    child: Child, pipe: seq<Byte>, stopped: bool,
    next: nat, source: Option<Source>, ended: bool,
    sent: seq<Sent>, emitted: seq<Byte>)

  /** Reading a file and writing the commands for what was read is one step: the
      child cannot tell when the bytes were put into the pipe. */
  datatype Event = Open | Copy(n: nat) | Close | End | ChildTurn

  function Start(disk: Disk): World {
    World(StartChild(disk), [], false, 0, None, false, [], [])
  }

  /** The open file as it is on disk now. */
  function Contents(w: World): seq<Byte>
    requires w.source.Some?
  {
    if w.source.value.path in w.child.disk then w.child.disk[w.source.value.path] else []
  }

  predicate Enabled(paths: seq<Path>, w: World, e: Event) {
    match e
    case Open => w.source.None? && w.next < |paths|
    case Copy(n) => w.source.Some? && 1 <= n <= CHUNK_SIZE && w.source.value.Offset() + n <= |Contents(w)|
    case Close => w.source.Some? && w.source.value.Offset() >= |Contents(w)|
    case End => w.source.None? && w.next == |paths| && !w.ended
    case ChildTurn => !w.stopped && (OneRound(w.child, w.pipe).Goes? || OneRound(w.child, w.pipe).Done?)
  }

  const CLOSE := SIZE + [0] + IntBytes(0)

  function Put(w: World, x: seq<Byte>): World {
    w.(pipe := w.pipe + x, emitted := w.emitted + x)
  }

  function AtOpen(w: World, path: Path): World {
    if path in w.child.disk then
      Put(w, FILENAME + [0] + (path + [0])).(next := w.next + 1, source := Some(Source(path, [])))
    else
      w.(next := w.next + 1)
  }

  function NextChunk(w: World, n: nat): (chunk: seq<Byte>)
    requires w.source.Some? && w.source.value.Offset() + n <= |Contents(w)|
    ensures |chunk| == n
  {
    Contents(w)[w.source.value.Offset()..w.source.value.Offset() + n]
  }

  function AtCopy(w: World, chunk: seq<Byte>): World
    requires w.source.Some? && |chunk| <= CHUNK_SIZE
  {
    Put(w, ChunkBytes(chunk)).(source := Some(Source(w.source.value.path, w.source.value.chunks + [chunk])))
  }

  function AtClose(w: World): World
    requires w.source.Some?
  {
    Put(w, CLOSE).(source := None, sent := w.sent + [Sent(w.source.value.path, w.source.value.chunks)])
  }

  function AtEnd(w: World): World {
    Put(w, END + [0]).(ended := true)
  }

  function AtTurn(w: World): World
    requires OneRound(w.child, w.pipe).Goes? || OneRound(w.child, w.pipe).Done?
  {
    var round := OneRound(w.child, w.pipe);
    if round.Goes? then w.(child := round.child, pipe := round.rest)
    else w.(stopped := true, pipe := TakeString(w.pipe, BUF_LEN).value.1)
  }

  function Apply(paths: seq<Path>, w: World, e: Event): World
    requires Enabled(paths, w, e)
  {
    match e
    case Open => AtOpen(w, paths[w.next])
    case Copy(n) => AtCopy(w, NextChunk(w, n))
    case Close => AtClose(w)
    case End => AtEnd(w)
    case ChildTurn => AtTurn(w)
  }

  ghost predicate LegalRun(paths: seq<Path>, w: World, events: seq<Event>)
    decreases |events|
  {
    events != [] ==> Enabled(paths, w, events[0]) && LegalRun(paths, Apply(paths, w, events[0]), events[1..])
  }

  function Run(paths: seq<Path>, w: World, events: seq<Event>): World
    requires LegalRun(paths, w, events)
    decreases |events|
  {
    if events == [] then w else Run(paths, Apply(paths, w, events[0]), events[1..])
  }

  /** Nobody can move. */
  ghost predicate Over(paths: seq<Path>, w: World) {
    forall e :: !Enabled(paths, w, e)
  }

  /** What the program is for: however parent and child are scheduled, the child
      stops and the copies are right. No file has the empty path. */
  ghost predicate CopiesInEveryRun(paths: seq<Path>) {
    forall disk: Disk, events ::
      [] !in disk && LegalRun(paths, Start(disk), events) && Over(paths, Run(paths, Start(disk), events)) ==>
        var w := Run(paths, Start(disk), events);
        w.stopped && w.pipe == [] && Right(disk, paths, w.child.disk)
  }

  /** Command line arguments hold no zero byte. */
  ghost predicate Plain(paths: seq<Path>) {
    forall k :: 0 <= k < |paths| ==> NoZero(paths[k])
  }

  ghost predicate PathsFit(paths: seq<Path>) {
    forall k :: 0 <= k < |paths| ==> |paths[k]| <= BUF_LEN
  }

  /** A path of the list is the copy of an earlier one. */
  ghost predicate Chained(paths: seq<Path>) {
    exists j, k :: 0 <= j < k < |paths| && paths[j] != [] && paths[k] == paths[j] + COPY
  }

  // ----- What every event keeps -----

  function OpenBytes(source: Source): seq<Byte>
    requires ChunksFit(source.chunks)
  {
    FILENAME + [0] + (source.path + [0] + ChunksBytes(source.chunks))
  }

  /** What was written behind the files that are complete. */
  function Tail(w: World): seq<Byte>
    requires w.source.Some? ==> ChunksFit(w.source.value.chunks)
  {
    if w.source.Some? then OpenBytes(w.source.value) else if w.ended then END + [0] else []
  }

  ghost predicate WellFormed(w: World) {
    && Sendable(w.sent)
    && (w.source.Some? ==> ChunksFit(w.source.value.chunks) && NoZero(w.source.value.path) && !w.ended)
    && w.emitted == FilesBytes(w.sent) + Tail(w)
  }

  /** The pipe, with the end command if the child has read it. */
  function Unread(w: World): seq<Byte> {
    (if w.stopped then END + [0] else []) + w.pipe
  }

  /** Child and pipe are what the child's rounds make of all that was emitted. */
  ghost predicate InStep(disk: Disk, w: World) {
    Reaches(StartChild(disk), w.emitted, w.child, Unread(w))
  }

  /** The child changes only files it has opened, and their paths are short. */
  ghost predicate Contained(disk: Disk, c: Child) {
    && (c.out.Some? ==> c.out.value in c.names && c.out.value in c.disk)
    && (forall q :: q in c.names ==> |q| <= BUF_LEN + |COPY|)
    && (forall q :: q !in c.names ==> (q in c.disk <==> q in disk) && (q in disk ==> c.disk[q] == disk[q]))
  }

  /** Files sent and the file being sent are as they were at the start. */
  ghost predicate Faithful(paths: seq<Path>, disk: Disk, w: World) {
    && w.next <= |paths|
    && (w.ended ==> w.source.None? && w.next == |paths|)
    && match w.source
       case None => Are(w.sent, Listed(paths[..w.next], disk), disk)
       case Some(source) =>
         && w.next > 0 && Are(w.sent, Listed(paths[..w.next - 1], disk), disk)
         && source.path == paths[w.next - 1] && source.path in disk
         && Joined(source.chunks) <= disk[source.path]
  }

  ghost predicate Inv(paths: seq<Path>, disk: Disk, w: World) {
    && WellFormed(w) && InStep(disk, w) && Contained(disk, w.child) && Faithful(paths, disk, w)
  }

  lemma TakeStringIsShort(s: seq<Byte>, room: nat)
    ensures TakeString(s, room).Some? ==> |TakeString(s, room).value.0| <= room
  {
  }

  lemma RoundIsContained(disk: Disk, c: Child, s: seq<Byte>)
    requires Contained(disk, c) && OneRound(c, s).Goes?
    ensures Contained(disk, OneRound(c, s).child)
  {
    var rest := TakeString(s, BUF_LEN).value.1;
    if TakeString(rest, BUF_LEN).Some? { TakeStringIsShort(rest, BUF_LEN); }
  }

  lemma TurnKeepsStep(disk: Disk, w: World)
    requires InStep(disk, w) && !w.stopped && (OneRound(w.child, w.pipe).Goes? || OneRound(w.child, w.pipe).Done?)
    ensures InStep(disk, AtTurn(w))
  {
    assert [] + w.pipe == w.pipe;
    if OneRound(w.child, w.pipe).Goes? {
      var c, rest := OneRound(w.child, w.pipe).child, OneRound(w.child, w.pipe).rest;
      assert [] + rest == rest;
      OneRoundReaches(w.child, w.pipe);
      ReachesTransitive(StartChild(disk), w.emitted, w.child, w.pipe, c, rest);
    } else {
      DoneIsEnd(w.child, w.pipe);
    }
  }

  lemma PutKeepsStep(disk: Disk, w: World, x: seq<Byte>)
    requires InStep(disk, w)
    ensures InStep(disk, Put(w, x))
  {
    assert Unread(Put(w, x)) == Unread(w) + x;
    ReachesMore(StartChild(disk), w.emitted, w.child, Unread(w), x);
  }

  // ----- The child opens copies of listed files only -----

  /** The files sent, the one being sent as if it were closed now. */
  function SentSoFar(w: World): seq<Sent> {
    w.sent + if w.source.Some? then [Sent(w.source.value.path, w.source.value.chunks)] else []
  }

  function Completion(w: World): seq<Byte> {
    if w.ended then [] else (if w.source.Some? then CLOSE else []) + (END + [0])
  }

  lemma Glued(a: seq<Byte>, b: seq<Byte>, x: seq<Byte>)
    ensures a + b + x == a + (b + x) && a + [] == a && [] + x == x
  {
  }

  lemma OpenBytesClosed(source: Source)
    requires ChunksFit(source.chunks)
    ensures OpenBytes(source) + CLOSE == FileBytes(Sent(source.path, source.chunks))
  {
    var name, chunks := source.path + [0], ChunksBytes(source.chunks);
    Glued(FILENAME + [0], name + chunks, CLOSE);
    Glued(name, chunks, CLOSE);
  }

  lemma CompletionCloses(w: World)
    requires WellFormed(w)
    ensures Sendable(SentSoFar(w)) && w.emitted + Completion(w) == StreamBytes(SentSoFar(w))
  {
    var files := FilesBytes(w.sent);
    if w.source.Some? {
      var f := Sent(w.source.value.path, w.source.value.chunks);
      FilesAppend(w.sent, f);
      OpenBytesClosed(w.source.value);
      Regrouped(files, OpenBytes(w.source.value), CLOSE, END + [0]);
    } else {
      assert SentSoFar(w) == w.sent;
      Glued(files, Tail(w), END + [0]);
    }
  }

  lemma {:induction false} AllCopiedOpens(c: Child, sent: seq<Sent>, q: Path)
    requires q in AllCopied(c, sent).names
    ensures q in c.names || exists k :: 0 <= k < |sent| && q == sent[k].name + COPY
    decreases |sent|
  {
    if sent != [] {
      AllCopiedOpens(Copied(c, sent[0]), sent[1..], q);
      if q !in Copied(c, sent[0]).names {
        var k :| 0 <= k < |sent[1..]| && q == sent[1..][k].name + COPY;
        assert sent[k + 1] == sent[1..][k];
      }
    }
  }

  lemma ChildOpensCopies(disk: Disk, w: World, q: Path)
    requires WellFormed(w) && InStep(disk, w) && NamesFit(SentSoFar(w))
    requires q in w.child.names
    ensures exists k :: 0 <= k < |SentSoFar(w)| && q == SentSoFar(w)[k].name + COPY
  {
    var t, sent := Completion(w), SentSoFar(w);
    CompletionCloses(w);
    assert w.emitted + t == StreamBytes(sent) + [];
    RunStream(StartChild(disk), sent, []);
    ReachesMore(StartChild(disk), w.emitted, w.child, Unread(w), t);
    ReachedRun(StartChild(disk), w.emitted + t, w.child, Unread(w) + t);
    NamesGrow(w.child, Unread(w) + t);
    assert q in AllCopied(StartChild(disk), sent).names;
    AllCopiedOpens(StartChild(disk), sent, q);
  }

  lemma SentSoFarIsListed(paths: seq<Path>, disk: Disk, w: World, k: nat)
    requires Faithful(paths, disk, w) && k < |SentSoFar(w)|
    ensures exists m :: 0 <= m < w.next && paths[m] in disk && SentSoFar(w)[k].name == paths[m]
  {
    if k < |w.sent| {
      var done := if w.source.None? then paths[..w.next] else paths[..w.next - 1];
      ListedIsIn(done, disk);
      assert w.sent[k].name in Listed(done, disk);
      var m :| 0 <= m < |done| && done[m] == w.sent[k].name;
    } else {
      assert SentSoFar(w)[k].name == paths[w.next - 1];
    }
  }

  lemma OpenedIsListed(paths: seq<Path>, disk: Disk, w: World, q: Path) returns (m: nat)
    requires WellFormed(w) && InStep(disk, w) && Faithful(paths, disk, w) && PathsFit(paths)
    requires q in w.child.names
    ensures m < w.next && paths[m] in disk && q == paths[m] + COPY
  {
    forall k | 0 <= k < |SentSoFar(w)| ensures |SentSoFar(w)[k].name| <= BUF_LEN {
      SentSoFarIsListed(paths, disk, w, k);
    }
    ChildOpensCopies(disk, w, q);
    var k :| 0 <= k < |SentSoFar(w)| && q == SentSoFar(w)[k].name + COPY;
    SentSoFarIsListed(paths, disk, w, k);
    m :| 0 <= m < w.next && paths[m] in disk && SentSoFar(w)[k].name == paths[m];
  }

  /** Only a later path can be copied to a path of the list. */
  lemma CopiedFromLater(paths: seq<Path>, i: nat, m: nat)
    requires !Chained(paths) && i < |paths| && m < |paths| && paths[m] != [] && paths[i] == paths[m] + COPY
    ensures m > i
  {
    assert |COPY| == 5;
  }

  /** A file that is being read, or is still to be opened, is as it was. */
  lemma UnreadIsUntouched(paths: seq<Path>, disk: Disk, w: World, i: nat)
    requires Inv(paths, disk, w) && PathsFit(paths) && !Chained(paths) && [] !in disk
    requires i < |paths| && w.next <= i + 1
    ensures paths[i] in w.child.disk <==> paths[i] in disk
    ensures paths[i] in disk ==> w.child.disk[paths[i]] == disk[paths[i]]
  {
    if paths[i] in w.child.names {
      var m := OpenedIsListed(paths, disk, w, paths[i]);
      CopiedFromLater(paths, i, m);
    }
  }

  // ----- Every event keeps the invariant -----

  lemma OpenKeepsForm(w: World, path: Path)
    requires WellFormed(w) && w.source.None? && NoZero(path) && !w.ended
    ensures WellFormed(AtOpen(w, path))
  {
    if path in w.child.disk {
      Glued(FilesBytes(w.sent), [], FILENAME + [0] + (path + [0]));
      Glued(path + [0], [], []);
    }
  }

  lemma OpenKeepsFaith(paths: seq<Path>, disk: Disk, w: World)
    requires Faithful(paths, disk, w) && w.source.None? && w.next < |paths|
    requires paths[w.next] in w.child.disk <==> paths[w.next] in disk
    ensures Faithful(paths, disk, AtOpen(w, paths[w.next]))
  {
    assert paths[..w.next + 1][..w.next] == paths[..w.next];
  }

  lemma OpenKeepsInv(paths: seq<Path>, disk: Disk, w: World)
    requires Inv(paths, disk, w) && w.source.None? && w.next < |paths| && NoZero(paths[w.next])
    requires paths[w.next] in w.child.disk <==> paths[w.next] in disk
    ensures Inv(paths, disk, AtOpen(w, paths[w.next]))
  {
    OpenKeepsForm(w, paths[w.next]);
    OpenKeepsFaith(paths, disk, w);
    PutKeepsStep(disk, w, FILENAME + [0] + (paths[w.next] + [0]));
  }

  lemma OpenBytesGrow(source: Source, chunk: seq<Byte>)
    requires ChunksFit(source.chunks) && 1 <= |chunk| <= CHUNK_SIZE
    ensures OpenBytes(Source(source.path, source.chunks + [chunk])) == OpenBytes(source) + ChunkBytes(chunk)
  {
    var name, chunks := source.path + [0], ChunksBytes(source.chunks);
    ChunksAppend(source.chunks, chunk);
    Glued(FILENAME + [0], name + chunks, ChunkBytes(chunk));
    Glued(name, chunks, ChunkBytes(chunk));
  }

  lemma CopyKeepsForm(w: World, chunk: seq<Byte>)
    requires WellFormed(w) && w.source.Some? && 1 <= |chunk| <= CHUNK_SIZE
    ensures WellFormed(AtCopy(w, chunk))
  {
    OpenBytesGrow(w.source.value, chunk);
    Glued(FilesBytes(w.sent), OpenBytes(w.source.value), ChunkBytes(chunk));
  }

  lemma CopyKeepsFaith(paths: seq<Path>, disk: Disk, w: World, n: nat)
    requires Faithful(paths, disk, w) && w.source.Some? && Contents(w) == disk[w.source.value.path]
    requires n <= CHUNK_SIZE && w.source.value.Offset() + n <= |Contents(w)|
    ensures Faithful(paths, disk, AtCopy(w, NextChunk(w, n)))
  {
    var at := w.source.value.Offset();
    JoinedAppend(w.source.value.chunks, NextChunk(w, n));
    assert Contents(w)[..at] + NextChunk(w, n) == Contents(w)[..at + n];
  }

  lemma CloseKeepsForm(w: World)
    requires WellFormed(w) && w.source.Some?
    ensures WellFormed(AtClose(w))
  {
    var source := w.source.value;
    OpenBytesClosed(source);
    FilesAppend(w.sent, Sent(source.path, source.chunks));
    Glued(FilesBytes(w.sent), OpenBytes(source), CLOSE);
    Glued(FilesBytes(w.sent) + OpenBytes(source) + CLOSE, [], []);
  }

  lemma CloseKeepsFaith(paths: seq<Path>, disk: Disk, w: World)
    requires Faithful(paths, disk, w) && w.source.Some?
    requires Contents(w) == disk[w.source.value.path] && w.source.value.Offset() >= |Contents(w)|
    ensures Faithful(paths, disk, AtClose(w))
  {
    assert paths[..w.next][..w.next - 1] == paths[..w.next - 1];
  }

  lemma EndKeepsInv(paths: seq<Path>, disk: Disk, w: World)
    requires Inv(paths, disk, w) && w.source.None? && w.next == |paths| && !w.ended
    ensures Inv(paths, disk, AtEnd(w))
  {
    Glued(FilesBytes(w.sent), [], END + [0]);
    PutKeepsStep(disk, w, END + [0]);
  }

  lemma TurnKeepsInv(paths: seq<Path>, disk: Disk, w: World)
    requires Inv(paths, disk, w)
    ensures Enabled(paths, w, ChildTurn) ==> Inv(paths, disk, AtTurn(w))
  {
    if Enabled(paths, w, ChildTurn) {
      TurnKeepsStep(disk, w);
      if OneRound(w.child, w.pipe).Goes? { RoundIsContained(disk, w.child, w.pipe); }
    }
  }

  lemma EventKeepsInv(paths: seq<Path>, disk: Disk, w: World, e: Event)
    requires Inv(paths, disk, w) && Enabled(paths, w, e)
    requires PathsFit(paths) && !Chained(paths) && [] !in disk && Plain(paths)
    ensures Inv(paths, disk, Apply(paths, w, e))
  {
    match e
    case Open =>
      UnreadIsUntouched(paths, disk, w, w.next);
      OpenKeepsInv(paths, disk, w);
    case Copy(n) =>
      UnreadIsUntouched(paths, disk, w, w.next - 1);
      CopyKeepsForm(w, NextChunk(w, n));
      CopyKeepsFaith(paths, disk, w, n);
      PutKeepsStep(disk, w, ChunkBytes(NextChunk(w, n)));
    case Close =>
      UnreadIsUntouched(paths, disk, w, w.next - 1);
      CloseKeepsForm(w);
      CloseKeepsFaith(paths, disk, w);
      PutKeepsStep(disk, w, CLOSE);
    case End =>
      EndKeepsInv(paths, disk, w);
    case ChildTurn =>
      TurnKeepsInv(paths, disk, w);
  }

  // ----- Every run -----

  lemma {:induction false} RunKeepsInv(paths: seq<Path>, disk: Disk, w: World, events: seq<Event>)
    requires Inv(paths, disk, w) && LegalRun(paths, w, events)
    requires PathsFit(paths) && !Chained(paths) && [] !in disk && Plain(paths)
    ensures Inv(paths, disk, Run(paths, w, events))
    decreases |events|
  {
    if events != [] {
      EventKeepsInv(paths, disk, w, events[0]);
      RunKeepsInv(paths, disk, Apply(paths, w, events[0]), events[1..]);
    }
  }

  lemma StartInv(paths: seq<Path>, disk: Disk)
    ensures Inv(paths, disk, Start(disk))
  {
    assert paths[..0] == [];
    Glued([], [], []);
  }

  lemma ParentIsOver(paths: seq<Path>, w: World)
    requires Over(paths, w) && w.next <= |paths|
    ensures w.source.None? && w.next == |paths| && w.ended
  {
    assert !Enabled(paths, w, Open) && !Enabled(paths, w, Copy(1)) && !Enabled(paths, w, Close) && !Enabled(paths, w, End);
  }

  /** Once the parent has ended, the child has only the pipe to go through. */
  lemma PipeIsEnough(disk: Disk, w: World)
    requires WellFormed(w) && InStep(disk, w) && w.source.None? && w.ended && NamesFit(w.sent)
    ensures ChildRun(w.child, Unread(w)) == Stopped(AllCopied(StartChild(disk), w.sent), [])
  {
    Glued(w.emitted, [], []);
    RunStream(StartChild(disk), w.sent, []);
    ReachedRun(StartChild(disk), w.emitted, w.child, Unread(w));
  }

  lemma StoppingRunMoves(c: Child, s: seq<Byte>)
    requires ChildRun(c, s).Stopped?
    ensures OneRound(c, s).Goes? || OneRound(c, s).Done?
  {
  }

  /** When nobody can move, the child has stopped with every copy made: neither
      process ever waits for the other in vain. */
  lemma OverIsDone(paths: seq<Path>, disk: Disk, w: World)
    requires Inv(paths, disk, w) && Over(paths, w) && PathsFit(paths)
    ensures w.stopped && w.pipe == [] && w.child == AllCopied(StartChild(disk), w.sent)
  {
    ParentIsOver(paths, w);
    forall k | 0 <= k < |w.sent| ensures |w.sent[k].name| <= BUF_LEN {
      SentSoFarIsListed(paths, disk, w, k);
    }
    assert !Enabled(paths, w, ChildTurn);
    PipeIsEnough(disk, w);
    Glued([], [], w.pipe);
    if w.stopped {
      EndRound(w.child, w.pipe);
    } else {
      StoppingRunMoves(w.child, w.pipe);
    }
  }

  /** Copies are right in every run if the paths fit and none is the copy of an
      earlier one. */
  lemma UnchainedIsRight(paths: seq<Path>, disk: Disk, events: seq<Event>)
    requires PathsFit(paths) && !Chained(paths) && Plain(paths) && [] !in disk
    requires LegalRun(paths, Start(disk), events) && Over(paths, Run(paths, Start(disk), events))
    ensures var w := Run(paths, Start(disk), events); w.stopped && w.pipe == [] && Right(disk, paths, w.child.disk)
  {
    var w := Run(paths, Start(disk), events);
    StartInv(paths, disk);
    RunKeepsInv(paths, disk, Start(disk), events);
    ParentIsOver(paths, w);
    OverIsDone(paths, disk, w);
    assert paths[..|paths|] == paths;
    AllCopiedRight(paths, w.sent, disk);
  }

  /** How much of the open file is still to be read, and the reading of its end. */
  function SourceWork(w: World): int {
    if w.source.None? then 0 else 1 + |Contents(w)| - w.source.value.Offset()
  }

  /** Files left to open, then the open file, then the end command, then the
      bytes in the pipe: the first of them to change goes down. */
  ghost predicate LessWork(w': World, w: World) {
    w'.next > w.next || (w'.next == w.next && (
      SourceWork(w') < SourceWork(w) || (SourceWork(w') == SourceWork(w) && (
        (w'.ended && !w.ended) || (w'.ended == w.ended && (
          (w'.stopped && !w.stopped) || (w'.stopped == w.stopped && |w'.pipe| < |w.pipe|)))))))
  }

  /** Every event lowers the work left, none of which is below zero, so every run
      ends. */
  lemma EventLowersWork(paths: seq<Path>, disk: Disk, w: World, e: Event)
    requires Inv(paths, disk, w) && Enabled(paths, w, e)
    requires PathsFit(paths) && !Chained(paths) && [] !in disk && Plain(paths)
    ensures LessWork(Apply(paths, w, e), w)
    ensures w.next <= |paths| && 0 <= SourceWork(w)
  {
    var work := SourceWorkIs(paths, disk, w);
    match e
    case Copy(n) => JoinedAppend(w.source.value.chunks, NextChunk(w, n));
    case ChildTurn =>
      RoundConsumes(w.child, w.pipe);
      TurnKeepsInv(paths, disk, w);
      var work' := SourceWorkIs(paths, disk, AtTurn(w));
    case _ =>
  }

  /** What is left of the open file, as it was at the start. */
  lemma SourceWorkIs(paths: seq<Path>, disk: Disk, w: World) returns (work: nat)
    requires Inv(paths, disk, w)
    requires PathsFit(paths) && !Chained(paths) && [] !in disk
    ensures SourceWork(w) == work
    ensures w.source.Some? ==>
      w.source.value.path in disk && work == 1 + |disk[w.source.value.path]| - w.source.value.Offset()
  {
    if w.source.Some? {
      UnreadIsUntouched(paths, disk, w, w.next - 1);
    }
    work := SourceWork(w);
  }

  // ----- Runs that go wrong -----

  lemma {:induction false} RunConcat(paths: seq<Path>, w: World, a: seq<Event>, b: seq<Event>)
    requires LegalRun(paths, w, a) && LegalRun(paths, Run(paths, w, a), b)
    ensures LegalRun(paths, w, a + b) && Run(paths, w, a + b) == Run(paths, Run(paths, w, a), b)
    decreases |a|
  {
    if a == [] {
      assert a + b == b;
    } else {
      assert (a + b)[0] == a[0] && (a + b)[1..] == a[1..] + b;
      RunConcat(paths, Apply(paths, w, a[0]), a[1..], b);
    }
  }

  lemma RunCons(paths: seq<Path>, w: World, e: Event, events: seq<Event>)
    requires Enabled(paths, w, e) && LegalRun(paths, Apply(paths, w, e), events)
    ensures LegalRun(paths, w, [e] + events) && Run(paths, w, [e] + events) == Run(paths, Apply(paths, w, e), events)
  {
    assert ([e] + events)[0] == e && ([e] + events)[1..] == events;
  }

  /** The parent's steps to the end of the open file, the child resting. */
  lemma {:induction false} FinishFile(paths: seq<Path>, w: World, before: seq<Byte>) returns (events: seq<Event>, f: Sent)
    requires w.source.Some? && ChunksFit(w.source.value.chunks) && Joined(w.source.value.chunks) <= Contents(w)
    requires w.pipe == before + OpenBytes(w.source.value)
    ensures LegalRun(paths, w, events)
    ensures f.name == w.source.value.path && ChunksFit(f.chunks) && Joined(f.chunks) == Contents(w)
    ensures var w' := Run(paths, w, events);
      && w'.source.None? && w'.pipe == before + FileBytes(f)
      && w'.child == w.child && w'.stopped == w.stopped && w'.next == w.next && w'.ended == w.ended
    decreases |Contents(w)| - w.source.value.Offset()
  {
    var source := w.source.value;
    if source.Offset() < |Contents(w)| {
      var chunk := NextChunk(w, 1);
      var w' := AtCopy(w, chunk);
      OpenBytesGrow(source, chunk);
      JoinedAppend(source.chunks, chunk);
      Glued(before, OpenBytes(source), ChunkBytes(chunk));
      assert Contents(w)[..source.Offset()] + chunk == Contents(w)[..source.Offset() + 1];
      events, f := FinishFile(paths, w', before);
      RunCons(paths, w, Copy(1), events);
      events := [Copy(1)] + events;
    } else {
      OpenBytesClosed(source);
      Glued(before, OpenBytes(source), CLOSE);
      events, f := [Close], Sent(source.path, source.chunks);
      RunCons(paths, w, Close, []);
      assert [Close] + [] == [Close];
    }
  }

  /** Between two files, with everything written read. */
  ghost predicate AtRest(w: World) {
    w.source.None? && w.pipe == [] && !w.stopped && !w.ended
  }

  lemma {:induction false} FollowChild(paths: seq<Path>, w: World, c: Child, s: seq<Byte>) returns (events: seq<Event>)
    requires !w.stopped && Reaches(w.child, w.pipe, c, s)
    ensures LegalRun(paths, w, events) && Run(paths, w, events) == w.(child := c, pipe := s)
    decreases |w.pipe|
  {
    RoundConsumes(w.child, w.pipe);
    if w.child == c && w.pipe == s {
      events := [];
    } else {
      events := FollowChild(paths, AtTurn(w), c, s);
      RunCons(paths, w, ChildTurn, events);
      events := [ChildTurn] + events;
    }
  }

  function CopiedOne(disk: Disk, path: Path): Disk {
    if path in disk then disk[path + COPY := disk[path]] else disk
  }

  /** The parent passes one file, and the child catches up. */
  lemma PassFile(paths: seq<Path>, w: World) returns (events: seq<Event>)
    requires AtRest(w) && w.next < |paths| && NoZero(paths[w.next]) && |paths[w.next]| <= BUF_LEN
    ensures LegalRun(paths, w, events)
    ensures var w' := Run(paths, w, events);
      AtRest(w') && w'.next == w.next + 1 && w'.child.disk == CopiedOne(w.child.disk, paths[w.next])
  {
    var path := paths[w.next];
    if path in w.child.disk {
      var rest := PassOpened(paths, AtOpen(w, path), path);
      RunCons(paths, w, Open, rest);
      events := [Open] + rest;
    } else {
      RunCons(paths, w, Open, []);
      events := [Open] + [];
    }
  }

  lemma PassOpened(paths: seq<Path>, w: World, path: Path) returns (events: seq<Event>)
    requires w.source == Some(Source(path, [])) && w.pipe == [] + (FILENAME + [0] + (path + [0]))
    requires path in w.child.disk && !w.stopped && !w.ended && NoZero(path) && |path| <= BUF_LEN
    ensures LegalRun(paths, w, events)
    ensures var w' := Run(paths, w, events);
      AtRest(w') && w'.next == w.next && w'.child.disk == CopiedOne(w.child.disk, path)
  {
    Glued(path + [0], [], []);
    var f;
    events, f := FinishFile(paths, w, []);
    var w2 := Run(paths, w, events);
    Glued([], [], FileBytes(f));
    Glued(FileBytes(f), [], []);
    ReachFile(w2.child, f, []);
    var follow := FollowChild(paths, w2, Copied(w2.child, f), []);
    RunConcat(paths, w, events, follow);
    events := events + follow;
  }

  /** The child's rounds to where it waits or stops, the parent having ended. */
  lemma {:induction false} ChildAlone(paths: seq<Path>, w: World) returns (events: seq<Event>)
    requires w.source.None? && w.next == |paths| && w.ended
    ensures LegalRun(paths, w, events) && Over(paths, Run(paths, w, events))
    decreases !w.stopped, |w.pipe|
  {
    if Enabled(paths, w, ChildTurn) {
      RoundConsumes(w.child, w.pipe);
      events := ChildAlone(paths, AtTurn(w));
      RunCons(paths, w, ChildTurn, events);
      events := [ChildTurn] + events;
    } else {
      events := [];
      forall e ensures !Enabled(paths, w, e) {
        match e
        case Copy(_) =>
        case _ =>
      }
    }
  }

  /** The parent's steps from between two files to its end, the child resting. */
  lemma {:induction false} ParentAlone(paths: seq<Path>, w: World) returns (events: seq<Event>)
    requires w.source.None? && w.next <= |paths| && !w.ended
    ensures LegalRun(paths, w, events)
    ensures var w' := Run(paths, w, events); w'.source.None? && w'.next == |paths| && w'.ended && w'.child == w.child
    decreases |paths| - w.next
  {
    if w.next == |paths| {
      RunCons(paths, w, End, []);
      events := [End] + [];
      return;
    }
    var path, w1 := paths[w.next], AtOpen(w, paths[w.next]);
    var rest := [];
    if path in w.child.disk {
      var f;
      Glued(path + [0], [], []);
      rest, f := FinishFile(paths, w1, w.pipe);
    }
    var more := ParentAlone(paths, Run(paths, w1, rest));
    RunConcat(paths, w1, rest, more);
    RunCons(paths, w, Open, rest + more);
    events := [Open] + (rest + more);
  }

  lemma {:induction false} RunIsContained(paths: seq<Path>, disk: Disk, w: World, events: seq<Event>)
    requires Contained(disk, w.child) && LegalRun(paths, w, events)
    ensures Contained(disk, Run(paths, w, events).child)
    decreases |events|
  {
    if events != [] {
      if events[0].ChildTurn? && OneRound(w.child, w.pipe).Goes? { RoundIsContained(disk, w.child, w.pipe); }
      RunIsContained(paths, disk, Apply(paths, w, events[0]), events[1..]);
    }
  }

  /** A file with a path longer than 511 characters is not copied: the child never
      opens a path that long. */
  lemma LongPathFails(paths: seq<Path>, k: nat) returns (disk: Disk, events: seq<Event>)
    requires k < |paths| && |paths[k]| > BUF_LEN
    ensures [] !in disk && LegalRun(paths, Start(disk), events) && Over(paths, Run(paths, Start(disk), events))
    ensures !Right(disk, paths, Run(paths, Start(disk), events).child.disk)
  {
    disk := map[paths[k] := []];
    var alone := ParentAlone(paths, Start(disk));
    var rest := ChildAlone(paths, Run(paths, Start(disk), alone));
    RunConcat(paths, Start(disk), alone, rest);
    events := alone + rest;
    RunIsContained(paths, disk, Start(disk), events);
    var copy := paths[k] + COPY;
    assert paths[k] in paths && |copy| == |paths[k]| + |COPY| && |COPY| == 5;
    assert copy !in Run(paths, Start(disk), events).child.disk;
  }

  /** The disk once the files before index i are copied one by one: a = paths[j]
      is empty as at the start, so its copy b = paths[k] becomes empty, and so
      does the copy of b. Every path is a or one made from it. */
  ghost predicate Spoiled(paths: seq<Path>, j: nat, k: nat, disk: Disk, i: nat)
    requires j < k < |paths|
  {
    var a, b := paths[j], paths[k];
    && (a in disk && disk[a] == [] && b in disk)
    && (forall p :: p in disk ==> |p| >= |a|)
    && (i > j ==> disk[b] == [])
    && (i > k ==> b + COPY in disk && disk[b + COPY] == [])
  }

  lemma CopyingSpoils(paths: seq<Path>, j: nat, k: nat, disk: Disk, i: nat)
    requires j < k < |paths| && paths[k] == paths[j] + COPY && Spoiled(paths, j, k, disk, i) && i < |paths|
    ensures Spoiled(paths, j, k, CopiedOne(disk, paths[i]), i + 1)
  {
    var a, b, p := paths[j], paths[k], paths[i];
    assert |COPY| == 5 && |p + COPY| == |p| + 5 && |b| == |a| + 5;
    if p + COPY == b { assert p == (p + COPY)[..|p|] == b[..|p|] && a == b[..|a|]; }
    if p + COPY == b + COPY { assert p == (p + COPY)[..|p|] && b == (b + COPY)[..|b|]; }
  }

  /** The run in which the child always catches up before the next file. */
  lemma {:induction false} PassAll(paths: seq<Path>, j: nat, k: nat, w: World) returns (events: seq<Event>)
    requires j < k < |paths| && paths[k] == paths[j] + COPY && PathsFit(paths) && Plain(paths)
    requires AtRest(w) && w.next <= |paths| && Spoiled(paths, j, k, w.child.disk, w.next)
    ensures LegalRun(paths, w, events) && Over(paths, Run(paths, w, events))
    ensures Spoiled(paths, j, k, Run(paths, w, events).child.disk, |paths|)
    decreases |paths| - w.next
  {
    if w.next < |paths| {
      CopyingSpoils(paths, j, k, w.child.disk, w.next);
      var first := PassFile(paths, w);
      var rest := PassAll(paths, j, k, Run(paths, w, first));
      RunConcat(paths, w, first, rest);
      events := first + rest;
    } else {
      var w1 := AtEnd(w);
      Glued([], [], END + [0]);
      Glued(END + [0], [], []);
      EndRound(w1.child, []);
      assert AtTurn(w1).child == w.child && AtTurn(w1).stopped;
      var rest := ChildAlone(paths, AtTurn(w1));
      StoppedStays(paths, AtTurn(w1), rest);
      RunCons(paths, w1, ChildTurn, rest);
      RunCons(paths, w, End, [ChildTurn] + rest);
      events := [End] + ([ChildTurn] + rest);
    }
  }

  lemma {:induction false} StoppedStays(paths: seq<Path>, w: World, events: seq<Event>)
    requires w.stopped && LegalRun(paths, w, events)
    ensures Run(paths, w, events).child == w.child
    decreases |events|
  {
    if events != [] { StoppedStays(paths, Apply(paths, w, events[0]), events[1..]); }
  }

  /** With a path that is the copy of an earlier one, a run exists in which the
      child overwrites that file before the parent reads it. */
  lemma ChainedFails(paths: seq<Path>, j: nat, k: nat) returns (disk: Disk, events: seq<Event>)
    requires j < k < |paths| && paths[j] != [] && paths[k] == paths[j] + COPY && PathsFit(paths) && Plain(paths)
    ensures [] !in disk && LegalRun(paths, Start(disk), events) && Over(paths, Run(paths, Start(disk), events))
    ensures !Right(disk, paths, Run(paths, Start(disk), events).child.disk)
  {
    disk := map[paths[j] := [], paths[k] := [1]];
    assert |COPY| == 5;
    events := PassAll(paths, j, k, Start(disk));
    assert paths[k] in paths && disk[paths[k]] == [1];
  }

  /** However the two processes are scheduled and whatever is on disk, every copy
      is right: if and only if no path is longer than 511 characters and none is
      an earlier path of the list with .copy behind it. */
  lemma CopiesIffFitAndUnchained(paths: seq<Path>)
    requires Plain(paths)
    ensures CopiesInEveryRun(paths) <==> PathsFit(paths) && !Chained(paths)
  {
    if !PathsFit(paths) {
      var k :| 0 <= k < |paths| && |paths[k]| > BUF_LEN;
      var disk, events := LongPathFails(paths, k);
    } else if Chained(paths) {
      var j, k :| 0 <= j < k < |paths| && paths[j] != [] && paths[k] == paths[j] + COPY;
      var disk, events := ChainedFails(paths, j, k);
    } else {
      forall disk: Disk, events |
        [] !in disk && LegalRun(paths, Start(disk), events) && Over(paths, Run(paths, Start(disk), events))
        ensures var w := Run(paths, Start(disk), events); w.stopped && w.pipe == [] && Right(disk, paths, w.child.disk)
      {
        UnchainedIsRight(paths, disk, events);
      }
    }
  }
}
