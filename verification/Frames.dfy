/** The length-prefixed frames of module3/practice7/client.c and server.c: the
    codec under partial reads and writes, the relay, and the file payload. */
module Frames {
  import opened Bytes
  import opened Sequences

  const MAX_PAYLOAD := 0x10_0000
  const NAME_LEN := 128
  const FILE: Byte := 70   // 'F'
  const SLASH: Byte := 47  // '/'

  datatype Frame = Frame(kind: Byte, payload: seq<Byte>)

  // ----- The stream of frames -----

  /** htonl of a length, in memory */
  function NetLen(n: nat): seq<Byte>
    requires n < 0x1_0000_0000
  {
    [n / 0x100_0000, n / 0x1_0000 % 0x100, n / 0x100 % 0x100, n % 0x100]
  }

  /** ntohl */
  function LenOf(b: seq<Byte>): nat
    requires |b| == 4
  {
    b[0] as int * 0x100_0000 + b[1] as int * 0x1_0000 + b[2] as int * 0x100 + b[3] as int
  }

  ghost predicate Sendable(frames: seq<Frame>) {
    forall k :: 0 <= k < |frames| ==> |frames[k].payload| < 0x1_0000_0000
  }

  function Encode(f: Frame): seq<Byte>
    requires |f.payload| < 0x1_0000_0000
  {
    [f.kind] + NetLen(|f.payload|) + f.payload
  }

  function EncodeAll(frames: seq<Frame>): seq<Byte>
    requires Sendable(frames)
  {
    if frames == [] then [] else Encode(frames[0]) + EncodeAll(frames[1..])
  }

  /** What recv_frame makes of a stream: the first frame and the bytes behind it,
      or None if the stream ends too soon or the length is over the limit. */
  function TakeFrame(s: seq<Byte>): Option<(Frame, seq<Byte>)> {
    if |s| < 5 then None else
    var len := LenOf(s[1..5]);
    if len > MAX_PAYLOAD || |s| - 5 < len then None
    else Some((Frame(s[0], s[5..5 + len]), s[5 + len..]))
  }

  /** The frames recv_frame returns before it fails. */
  function DecodeAll(s: seq<Byte>): seq<Frame> {
    match TakeFrame(s)
    case None => []
    case Some((f, rest)) => [f] + DecodeAll(rest)
  }

  /** Lengths travel in network order. */
  lemma NetLenIsBigEndian(n: nat)
    requires n < 0x1_0000_0000
    ensures |NetLen(n)| == 4 && BigEndian(NetLen(n)) == n
  {
    var b := NetLen(n);
    assert b[..3] == [b[0], b[1], b[2]] && b[..3][..2] == [b[0], b[1]] && b[..3][..2][..1] == [b[0]];
    assert b[..3][..2][..1][..0] == [];
    assert BigEndian(b[..3][..2][..1]) == b[0] as int;
    assert BigEndian(b[..3][..2]) == b[0] as int * 0x100 + b[1] as int;
    assert BigEndian(b[..3]) == (b[0] as int * 0x100 + b[1] as int) * 0x100 + b[2] as int;
    LenOfNetLen(n);
  }

  lemma LenOfNetLen(n: nat)
    requires n < 0x1_0000_0000
    ensures LenOf(NetLen(n)) == n
  {
    var low3, low2 := n / 0x100, n / 0x1_0000;
    assert n == 0x100 * low3 + n % 0x100;
    assert low3 == 0x100 * low2 + low3 % 0x100;
    assert low2 == 0x100 * (n / 0x100_0000) + low2 % 0x100;
  }

  lemma HeaderOf(f: Frame, rest: seq<Byte>)
    requires |f.payload| < 0x1_0000_0000
    ensures var s := Encode(f) + rest;
      |s| >= 5 && s[0] == f.kind && s[1..5] == NetLen(|f.payload|) && LenOf(s[1..5]) == |f.payload|
  {
    var s := Encode(f) + rest;
    assert s[1..5] == NetLen(|f.payload|);
    LenOfNetLen(|f.payload|);
  }

  lemma TakeWhatWasSent(f: Frame, rest: seq<Byte>)
    requires |f.payload| < 0x1_0000_0000
    ensures TakeFrame(Encode(f) + rest) == if |f.payload| <= MAX_PAYLOAD then Some((f, rest)) else None
  {
    var s := Encode(f) + rest;
    HeaderOf(f, rest);
    if |f.payload| <= MAX_PAYLOAD {
      assert s[5..5 + |f.payload|] == f.payload && s[5 + |f.payload|..] == rest;
    }
  }

  ghost predicate WithinLimit(frames: seq<Frame>) {
    forall k :: 0 <= k < |frames| ==> |frames[k].payload| <= MAX_PAYLOAD
  }

  /** Repeated recv_frame returns exactly the frames sent, in order, if and only
      if no payload is over the limit. */
  lemma {:induction false} DecodeOfEncode(frames: seq<Frame>)
    requires Sendable(frames)
    ensures DecodeAll(EncodeAll(frames)) == frames <==> WithinLimit(frames)
  {
    if frames != [] {
      TakeWhatWasSent(frames[0], EncodeAll(frames[1..]));
      DecodeOfEncode(frames[1..]);
      assert forall k :: 0 <= k < |frames[1..]| ==> frames[1..][k] == frames[k + 1];
      assert frames == [frames[0]] + frames[1..];
    }
  }

  lemma CutBehind(a: seq<Byte>, b: seq<Byte>, n: nat)
    requires |a| <= n <= |a| + |b|
    ensures (a + b)[..n] == a + b[..n - |a|]
  {
  }

  /** A stream cut anywhere yields no frame that was not sent. */
  lemma {:induction false} CutStreamIsSafe(frames: seq<Frame>, n: nat)
    requires Sendable(frames) && n <= |EncodeAll(frames)|
    ensures DecodeAll(EncodeAll(frames)[..n]) <= frames
    decreases |frames|
  {
    if frames != [] {
      var f, tail := frames[0], EncodeAll(frames[1..]);
      var s := EncodeAll(frames)[..n];
      if n >= |Encode(f)| {
        CutBehind(Encode(f), tail, n);
        TakeWhatWasSent(f, tail[..n - |Encode(f)|]);
        CutStreamIsSafe(frames[1..], n - |Encode(f)|);
      } else if n >= 5 {
        HeaderOf(f, tail);
        assert s[1..5] == (Encode(f) + tail)[1..5];
      }
    }
  }

  // ----- The loops -----

  /** read_n */
  method ReadN(fd: Stream, n: nat) returns (ok: bool, buf: seq<Byte>)
    modifies fd
    ensures ok <==> |old(fd.data)| >= n
    ensures ok ==> buf == old(fd.data)[..n] && fd.data == old(fd.data)[n..]
  {
    buf := [];
    while |buf| < n
      invariant |buf| <= n && buf + fd.data == old(fd.data)
    {
      var r := fd.Read(n - |buf|);
      if r == [] {
        return false, buf;
      }
      buf := buf + r;
    }
    ok := true;
  }

  /** write_n */
  method WriteN(fd: Stream, buf: seq<Byte>)
    modifies fd
    ensures fd.data == old(fd.data) + buf
  {
    var sent := 0;
    while sent < |buf|
      invariant 0 <= sent <= |buf| && fd.data == old(fd.data) + buf[..sent]
    {
      var w := fd.Write(buf[sent..]);
      assert buf[..sent + w] == buf[..sent] + buf[sent..][..w];
      sent := sent + w;
    }
  }

  /** recv_frame */
  method RecvFrame(fd: Stream) returns (f: Option<Frame>)
    modifies fd
    ensures match TakeFrame(old(fd.data))
      case None => f == None
      case Some((frame, rest)) => f == Some(frame) && fd.data == rest
  {
    ghost var s := fd.data;
    var ok, header := ReadN(fd, 5);
    if !ok {
      return None;
    }
    assert header[0] == s[0] && header[1..] == s[1..5];
    var len := LenOf(header[1..]);
    if len > MAX_PAYLOAD {
      return None;
    }
    var payload := [];
    if len > 0 {
      ok, payload := ReadN(fd, len);
      if !ok {
        return None;
      }
    }
    assert payload == s[5..][..len] == s[5..5 + len] && fd.data == s[5..][len..] == s[5 + len..];
    f := Some(Frame(header[0], payload));
  }

  /** send_frame */
  method SendFrame(fd: Stream, f: Frame)
    requires |f.payload| < 0x1_0000_0000
    modifies fd
    ensures fd.data == old(fd.data) + Encode(f)
  {
    var header := [f.kind] + NetLen(|f.payload|);
    WriteN(fd, header);
    if |f.payload| > 0 {
      WriteN(fd, f.payload);
    }
    assert old(fd.data) + header + f.payload == old(fd.data) + (header + f.payload);
  }

  // ----- The relay -----

  /** broadcast: to every client but one */
  method Broadcast(clients: seq<Stream>, f: Frame, except: Stream)
    requires Distinct(clients) && |f.payload| < 0x1_0000_0000
    modifies clients
    ensures forall i :: 0 <= i < |clients| ==>
      clients[i].data == old(clients[i].data) + if clients[i] == except then [] else Encode(f)
  {
    var i := 0;
    while i < |clients|
      invariant 0 <= i <= |clients|
      invariant forall k :: 0 <= k < i ==>
        clients[k].data == old(clients[k].data) + if clients[k] == except then [] else Encode(f)
      invariant forall k :: i <= k < |clients| ==> clients[k].data == old(clients[k].data)
    {
      if clients[i] != except {
        SendFrame(clients[i], f);
      }
      i := i + 1;
    }
  }

  lemma {:induction false} EncodeAppend(frames: seq<Frame>, f: Frame)
    requires Sendable(frames) && |f.payload| < 0x1_0000_0000
    ensures Sendable(frames + [f]) && EncodeAll(frames + [f]) == EncodeAll(frames) + Encode(f)
  {
    assert [f][0] == f && [f][1..] == [];
    if frames == [] {
      assert frames + [f] == [f];
    } else {
      assert (frames + [f])[1..] == frames[1..] + [f];
      EncodeAppend(frames[1..], f);
      assert Encode(frames[0]) + EncodeAll(frames[1..]) + Encode(f) == Encode(frames[0]) + (EncodeAll(frames[1..]) + Encode(f));
    }
  }

  lemma {:induction false} DecodedWithinLimit(s: seq<Byte>)
    ensures WithinLimit(DecodeAll(s))
  {
    match TakeFrame(s)
    case None =>
    case Some((f, rest)) => DecodedWithinLimit(rest);
  }

  /** A frame the server received, and from which of its clients. */
  datatype Entry = Entry(from: nat, frame: Frame)

  /** The frames that are for client j: those of the others, in the order in which
      the server received them. */
  function Others(log: seq<Entry>, j: nat): seq<Frame> {
    if log == [] then []
    else
      var last := log[|log| - 1];
      Others(log[..|log| - 1], j) + if last.from == j then [] else [last.frame]
  }

  /** The frames client i sent, in order. */
  function Own(log: seq<Entry>, i: nat): seq<Frame> {
    if log == [] then []
    else
      var last := log[|log| - 1];
      Own(log[..|log| - 1], i) + if last.from == i then [last.frame] else []
  }

  ghost predicate LogFits(log: seq<Entry>) {
    forall k :: 0 <= k < |log| ==> |log[k].frame.payload| <= MAX_PAYLOAD
  }

  lemma {:induction false} OthersFit(log: seq<Entry>, j: nat)
    requires LogFits(log)
    ensures WithinLimit(Others(log, j)) && Sendable(Others(log, j))
  {
    if log != [] { OthersFit(log[..|log| - 1], j); }
  }

  /** Every client has the frames of the others behind what it had before. */
  ghost predicate Relayed(outs: seq<Stream>, was: seq<seq<Byte>>, log: seq<Entry>)
    reads outs
  {
    && |was| == |outs|
    && forall j :: 0 <= j < |outs| ==>
         Sendable(Others(log, j)) && outs[j].data == was[j] + EncodeAll(Others(log, j))
  }

  /** The frames of every client are those received so far and those still coming. */
  ghost predicate Drawn(ins: seq<Stream>, was: seq<seq<Byte>>, log: seq<Entry>)
    reads ins
  {
    && |was| == |ins|
    && forall i :: 0 <= i < |ins| ==> DecodeAll(was[i]) == Own(log, i) + DecodeAll(ins[i].data)
  }

  lemma LogGrows(log: seq<Entry>, e: Entry, j: nat)
    ensures Others(log + [e], j) == Others(log, j) + if e.from == j then [] else [e.frame]
    ensures Own(log + [e], j) == Own(log, j) + if e.from == j then [e.frame] else []
  {
    assert (log + [e])[..|log|] == log;
  }

  lemma OneMoreFor(was: seq<Byte>, now: seq<Byte>, log: seq<Entry>, e: Entry, j: nat)
    requires Sendable(Others(log, j)) && now == was + EncodeAll(Others(log, j)) && |e.frame.payload| <= MAX_PAYLOAD
    ensures Sendable(Others(log + [e], j))
    ensures now + (if e.from == j then [] else Encode(e.frame)) == was + EncodeAll(Others(log + [e], j))
  {
    LogGrows(log, e, j);
    var frames := Others(log, j);
    if e.from == j {
      assert frames + [] == frames && now + [] == now;
    } else {
      EncodeAppend(frames, e.frame);
      assert was + EncodeAll(frames) + Encode(e.frame) == was + (EncodeAll(frames) + Encode(e.frame));
    }
  }

  /** One frame more for everybody but its sender. */
  method RelayOne(outs: seq<Stream>, i: nat, f: Frame, ghost log: seq<Entry>, ghost was: seq<seq<Byte>>)
    requires Distinct(outs) && i < |outs| && |f.payload| <= MAX_PAYLOAD && Relayed(outs, was, log)
    modifies outs
    ensures Relayed(outs, was, log + [Entry(i, f)])
  {
    Broadcast(outs, f, outs[i]);
    forall j | 0 <= j < |outs|
      ensures Sendable(Others(log + [Entry(i, f)], j)) && outs[j].data == was[j] + EncodeAll(Others(log + [Entry(i, f)], j))
    {
      OneMoreFor(was[j], old(outs[j].data), log, Entry(i, f), j);
    }
  }

  lemma OneMoreDrawn(was: seq<seq<Byte>>, before: seq<seq<Byte>>, now: seq<seq<Byte>>, log: seq<Entry>, e: Entry)
    requires |was| == |before| == |now| && e.from < |was|
    requires forall i :: 0 <= i < |was| ==> DecodeAll(was[i]) == Own(log, i) + DecodeAll(before[i])
    requires forall i :: 0 <= i < |was| && i != e.from ==> now[i] == before[i]
    requires DecodeAll(before[e.from]) == [e.frame] + DecodeAll(now[e.from])
    ensures forall i :: 0 <= i < |was| ==> DecodeAll(was[i]) == Own(log + [e], i) + DecodeAll(now[i])
  {
    forall i | 0 <= i < |was| ensures DecodeAll(was[i]) == Own(log + [e], i) + DecodeAll(now[i]) {
      LogGrows(log, e, i);
      if i == e.from {
        assert Own(log, i) + ([e.frame] + DecodeAll(now[i])) == Own(log, i) + [e.frame] + DecodeAll(now[i]);
      } else {
        assert Own(log, i) + [] == Own(log, i);
      }
    }
  }

  /** Every client has a stream to the server and one from it. */
  ghost predicate Connected(ins: seq<Stream>, outs: seq<Stream>) {
    && |ins| == |outs| && Distinct(ins) && Distinct(outs)
    && forall i, j :: 0 <= i < |ins| && 0 <= j < |outs| ==> ins[i] != outs[j]
  }

  ghost function Data(streams: seq<Stream>): seq<seq<Byte>>
    reads streams
  {
    seq(|streams|, i requires 0 <= i < |streams| reads streams => streams[i].data)
  }

  /** recv_frame from client i. */
  method Draw(ins: seq<Stream>, i: nat, ghost was: seq<seq<Byte>>, ghost log: seq<Entry>) returns (f: Option<Frame>)
    requires Distinct(ins) && i < |ins| && Drawn(ins, was, log) && LogFits(log)
    modifies ins[i]
    ensures f == None ==> Own(log, i) == DecodeAll(was[i])
    ensures f.Some? ==> Drawn(ins, was, log + [Entry(i, f.value)]) && LogFits(log + [Entry(i, f.value)])
  {
    ghost var before := Data(ins);
    f := RecvFrame(ins[i]);
    if f == None {
      assert Own(log, i) + [] == Own(log, i);
      return;
    }
    DecodedWithinLimit(before[i]);
    assert DecodeAll(before[i])[0] == f.value;
    OneMoreDrawn(was, before, Data(ins), log, Entry(i, f.value));
  }

  /** The server's turn for a client with something to read: the frame received
      and relayed, or None if recv_frame fails. */
  method Turn(ins: seq<Stream>, outs: seq<Stream>, i: nat,
              ghost inWas: seq<seq<Byte>>, ghost outWas: seq<seq<Byte>>, ghost log: seq<Entry>)
    returns (f: Option<Frame>)
    requires Connected(ins, outs) && i < |ins|
    requires Drawn(ins, inWas, log) && Relayed(outs, outWas, log) && LogFits(log)
    modifies ins, outs
    ensures f == None ==> Own(log, i) == DecodeAll(inWas[i]) && Relayed(outs, outWas, log)
    ensures f.Some? ==>
      var log' := log + [Entry(i, f.value)]; Drawn(ins, inWas, log') && Relayed(outs, outWas, log') && LogFits(log')
  {
    ghost var outNow := Data(outs);
    f := Draw(ins, i, inWas, log);
    assert Data(outs) == outNow && Relayed(outs, outWas, log);
    if f.Some? {
      ghost var log', inNow := log + [Entry(i, f.value)], Data(ins);
      assert log'[|log|].frame == f.value;
      RelayOne(outs, i, f.value, log, outWas);
      assert Data(ins) == inNow && Drawn(ins, inWas, log');
    }
  }

  /** The log of some turns, in their order. */
  ghost predicate FollowsTurns(log: seq<Entry>, turns: seq<nat>) {
    |log| <= |turns| && forall k :: 0 <= k < |log| ==> log[k].from == turns[k]
  }

  lemma OneTurnMore(log: seq<Entry>, turns: seq<nat>, e: Entry)
    requires FollowsTurns(log, turns) && |log| < |turns| && e.from == turns[|log|]
    ensures FollowsTurns(log + [e], turns)
  {
  }

  method RelayTurns(ins: seq<Stream>, outs: seq<Stream>, turns: seq<nat>,
                    ghost inWas: seq<seq<Byte>>, ghost outWas: seq<seq<Byte>>) returns (ghost log: seq<Entry>)
    requires Connected(ins, outs)
    requires forall k :: 0 <= k < |turns| ==> turns[k] < |ins|
    requires Drawn(ins, inWas, []) && Relayed(outs, outWas, [])
    modifies ins, outs
    ensures FollowsTurns(log, turns) && LogFits(log) && Relayed(outs, outWas, log)
    ensures if |log| == |turns| then Drawn(ins, inWas, log) else Own(log, turns[|log|]) == DecodeAll(inWas[turns[|log|]])
  {
    log := [];
    var n := 0;
    while n < |turns|
      invariant 0 <= n <= |turns| && |log| == n && LogFits(log) && FollowsTurns(log, turns)
      invariant Drawn(ins, inWas, log) && Relayed(outs, outWas, log)
    {
      var f := Turn(ins, outs, turns[n], inWas, outWas, log);
      if f == None {
        return;
      }
      OneTurnMore(log, turns, Entry(turns[n], f.value));
      log := log + [Entry(turns[n], f.value)];
      n := n + 1;
    }
  }

  /** The receiving half of the server's loop, with the clients connected. turns
      names the client of each round, in any order; the loop ends where a client's
      frame cannot be received, when the server would take it off its list. Each
      client is sent the frames of the others in the order in which the server
      received them, and decodes them to just that; each client's own frames are
      received in the order in which it sent them. */
  method Relay(ins: seq<Stream>, outs: seq<Stream>, turns: seq<nat>) returns (ghost log: seq<Entry>)
    requires Connected(ins, outs)
    requires forall k :: 0 <= k < |turns| ==> turns[k] < |ins|
    modifies ins, outs
    ensures FollowsTurns(log, turns)
    ensures forall j :: 0 <= j < |outs| ==>
      && Sendable(Others(log, j)) && outs[j].data == old(outs[j].data) + EncodeAll(Others(log, j))
      && DecodeAll(EncodeAll(Others(log, j))) == Others(log, j)
    ensures |log| == |turns| ==>
      forall i :: 0 <= i < |ins| ==> DecodeAll(old(ins[i].data)) == Own(log, i) + DecodeAll(ins[i].data)
    ensures |log| < |turns| ==> Own(log, turns[|log|]) == DecodeAll(old(ins[turns[|log|]].data))
  {
    StartOfLog(ins, outs);
    log := RelayTurns(ins, outs, turns, Data(ins), Data(outs));
    OthersDecode(log, |outs|);
  }

  lemma StartOfLog(ins: seq<Stream>, outs: seq<Stream>)
    ensures Drawn(ins, Data(ins), []) && Relayed(outs, Data(outs), [])
  {
    forall i | 0 <= i < |ins| ensures DecodeAll(ins[i].data) == [] + DecodeAll(ins[i].data) {
    }
  }

  lemma OthersDecode(log: seq<Entry>, n: nat)
    requires LogFits(log)
    ensures forall j :: 0 <= j < n ==> Sendable(Others(log, j)) && DecodeAll(EncodeAll(Others(log, j))) == Others(log, j)
  {
    forall j | 0 <= j < n ensures Sendable(Others(log, j)) && DecodeAll(EncodeAll(Others(log, j))) == Others(log, j) {
      OthersFit(log, j);
      DecodeOfEncode(Others(log, j));
    }
  }

  // ----- Files -----

  /** strrchr(path, '/'); -1 stands for NULL. */
  function LastSlash(path: seq<Byte>): (i: int)
    ensures -1 <= i < |path|
    ensures i >= 0 ==> path[i] == SLASH
    ensures forall k :: i < k < |path| ==> path[k] != SLASH
  {
    if path == [] then -1
    else if path[|path| - 1] == SLASH then |path| - 1
    else LastSlash(path[..|path| - 1])
  }

  /** What send_file takes for the base name. */
  function BaseName(path: seq<Byte>): seq<Byte> {
    path[LastSlash(path) + 1..]
  }

  /** It is what follows the last slash, or the whole path if there is none. */
  lemma BaseNameIsLast(path: seq<Byte>)
    ensures var base := BaseName(path);
      && |base| <= |path| && path == path[..|path| - |base|] + base
      && 47 !in base && (|base| < |path| ==> path[|path| - |base| - 1] == 47)
  {
    var i := LastSlash(path);
    assert forall k :: 0 <= k < |BaseName(path)| ==> BaseName(path)[k] == path[i + 1 + k];
  }

  function Zeros(n: nat): seq<Byte> {
    seq(n, _ => 0)
  }

  function Cut(name: seq<Byte>): seq<Byte> {
    if |name| < NAME_LEN then name else name[..NAME_LEN - 1]
  }

  /** The frame of send_file, if the file is not too big. */
  function FileFrame(path: seq<Byte>, contents: seq<Byte>): Option<Frame> {
    if |contents| > MAX_PAYLOAD - NAME_LEN then None
    else
      var name := Cut(BaseName(path));
      Some(Frame(FILE, name + Zeros(NAME_LEN - |name|) + contents))
  }

  /** The name and the data a client takes out of a file frame. */
  function Unpack(payload: seq<Byte>): (seq<Byte>, seq<Byte>)
    requires |payload| >= NAME_LEN
  {
    (UpToZero(payload[..NAME_LEN - 1]), payload[NAME_LEN..])
  }

  lemma {:induction false} UpToZeroOf(text: seq<Byte>, n: nat)
    requires 0 !in text
    ensures UpToZero(text + Zeros(n)) == text
  {
    if text == [] {
      assert text + Zeros(n) == Zeros(n);
    } else {
      assert (text + Zeros(n))[1..] == text[1..] + Zeros(n);
      UpToZeroOf(text[1..], n);
    }
  }

  /** A file that fits arrives behind any relay with the same data, and with the
      same base name if and only if that has at most 127 characters. */
  lemma FileArrives(path: seq<Byte>, contents: seq<Byte>, rest: seq<Byte>)
    requires 0 !in path && FileFrame(path, contents).Some?
    ensures var f := FileFrame(path, contents).value;
      && TakeFrame(Encode(f) + rest) == Some((f, rest))
      && Unpack(f.payload) == (Cut(BaseName(path)), contents)
      && (Unpack(f.payload).0 == BaseName(path) <==> |BaseName(path)| < NAME_LEN)
  {
    var f, name := FileFrame(path, contents).value, Cut(BaseName(path));
    TakeWhatWasSent(f, rest);
    assert f.payload[..NAME_LEN - 1] == name + Zeros(NAME_LEN - 1 - |name|);
    assert f.payload[NAME_LEN..] == contents;
    UpToZeroOf(name, NAME_LEN - 1 - |name|);
  }

  /** memset and strncpy of the name into g_send_buf; it may hold anything from
      earlier calls. */
  method PackName(sendBuf: array<Byte>, base: seq<Byte>)
    requires sendBuf.Length >= NAME_LEN
    modifies sendBuf
    ensures sendBuf[..NAME_LEN] == Cut(base) + Zeros(NAME_LEN - |Cut(base)|)
  {
    var i := 0;
    while i < NAME_LEN
      invariant 0 <= i <= NAME_LEN && forall k :: 0 <= k < i ==> sendBuf[k] == 0
    {
      sendBuf[i] := 0;
      i := i + 1;
    }
    i := 0;
    while i < NAME_LEN - 1 && i < |base|
      invariant 0 <= i <= NAME_LEN - 1 && i <= |base|
      invariant forall k :: 0 <= k < i ==> sendBuf[k] == base[k]
      invariant forall k :: i <= k < NAME_LEN ==> sendBuf[k] == 0
    {
      sendBuf[i] := base[i];
      i := i + 1;
    }
  }

  /** The filling of g_send_buf by send_file. */
  method Pack(sendBuf: array<Byte>, path: seq<Byte>, contents: seq<Byte>)
    requires sendBuf.Length == MAX_PAYLOAD && FileFrame(path, contents).Some?
    modifies sendBuf
    ensures sendBuf[..NAME_LEN + |contents|] == FileFrame(path, contents).value.payload
  {
    PackName(sendBuf, BaseName(path));
    ghost var name := sendBuf[..NAME_LEN];
    var i := 0;
    while i < |contents|
      invariant 0 <= i <= |contents| && sendBuf[..NAME_LEN] == name
      invariant forall k :: 0 <= k < i ==> sendBuf[NAME_LEN + k] == contents[k]
    {
      sendBuf[NAME_LEN + i] := contents[i];
      i := i + 1;
    }
    assert sendBuf[..NAME_LEN + |contents|] == name + contents;
  }

  /** send_file */
  method SendFile(fd: Stream, path: seq<Byte>, contents: seq<Byte>, sendBuf: array<Byte>) returns (sent: bool)
    requires sendBuf.Length == MAX_PAYLOAD
    modifies fd, sendBuf
    ensures sent <==> FileFrame(path, contents).Some?
    ensures sent ==> fd.data == old(fd.data) + Encode(FileFrame(path, contents).value)
    ensures !sent ==> fd.data == old(fd.data)
  {
    if |contents| > MAX_PAYLOAD - NAME_LEN {
      return false;
    }
    Pack(sendBuf, path, contents);
    SendFrame(fd, Frame(FILE, sendBuf[..NAME_LEN + |contents|]));
    sent := true;
  }

  /** recv_frame and the unpacking of a file frame in a client's loop. */
  method ReceiveFile(fd: Stream) returns (got: Option<(seq<Byte>, seq<Byte>)>)
    modifies fd
    ensures match TakeFrame(old(fd.data))
      case None => got == None
      case Some((f, rest)) =>
        && (got.Some? <==> f.kind == FILE && |f.payload| >= NAME_LEN)
        && (got.Some? ==> got.value == Unpack(f.payload)) && fd.data == rest
  {
    var f := RecvFrame(fd);
    if f == None || f.value.kind != FILE || |f.value.payload| < NAME_LEN {
      return None;
    }
    got := Some(Unpack(f.value.payload));
  }

  lemma FirstForOthers(e: Entry, j: nat)
    requires j != e.from
    ensures Others([e], j) == [e.frame]
  {
    assert [e][..0] == [];
  }

  /** A file from one client to another: send_file, the server's turn, recv_frame
      and the unpacking, with whatever splitting of reads and writes. Client j gets
      the data as it was, under the base name if and only if that has at most 127
      characters; a file that is too big is not sent. */
  method ShareFile(ins: seq<Stream>, outs: seq<Stream>, i: nat, j: nat, sendBuf: array<Byte>, path: seq<Byte>, contents: seq<Byte>)
    returns (got: Option<(seq<Byte>, seq<Byte>)>)
    requires Connected(ins, outs) && i < |ins| && j < |outs| && i != j
    requires sendBuf.Length == MAX_PAYLOAD && 0 !in path && ins[i].data == [] && outs[j].data == []
    modifies ins, outs, sendBuf
    ensures got.Some? <==> |contents| <= MAX_PAYLOAD - NAME_LEN
    ensures got.Some? ==>
      && got.value.1 == contents
      && got.value.0 == (if |BaseName(path)| <= 127 then BaseName(path) else BaseName(path)[..127])
      && outs[j].data == []
  {
    var sent := SendFile(ins[i], path, contents, sendBuf);
    if !sent {
      return None;
    }
    ghost var f := FileFrame(path, contents).value;
    FileArrives(path, contents, []);
    assert [] + Encode(f) == Encode(f) + [];
    ghost var log := Relay(ins, outs, [i]);
    assert DecodeAll(Encode(f) + []) == [f] + DecodeAll([]);
    FileIsRelayed(log, i, j, f);
    got := ReceiveFile(outs[j]);
  }

  /** The one turn relays the one frame. */
  lemma FileIsRelayed(log: seq<Entry>, i: nat, j: nat, f: Frame)
    requires i != j && FollowsTurns(log, [i]) && |f.payload| <= MAX_PAYLOAD
    requires |log| == 1 ==> exists rest :: [f] == Own(log, i) + rest
    requires |log| < 1 ==> Own(log, i) == [f]
    ensures Others(log, j) == [f] && Sendable([f]) && [] + EncodeAll([f]) == Encode(f) + []
  {
    if |log| == 1 {
      assert log == [log[0]] && log[..0] == [];
      assert log[0].from == [i][0] == i;
      assert Own(log, i) == [] + [log[0].frame];
      var rest :| [f] == Own(log, i) + rest;
      assert [f][0] == log[0].frame;
      FirstForOthers(log[0], j);
    }
    assert [f][1..] == [];
  }
}
