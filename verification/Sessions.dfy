/** The session table of the raw UDP server, module3/cross1/server.c: an array
    with swap-remove that behaves as a map from (address, port) to a counter. */
module Sessions {
  import opened Bytes
  import opened Checksum
  import opened Decimal
  import opened Packets

  const MAX_CLIENTS := 64
  const OPEN: Byte := 77   // 'M'
  const CLOSE: Byte := 67  // 'C'

  /** What identifies a client. */
  datatype Peer = Peer(ip: Addr, port: U16)

  datatype ClientState = ClientState(ip: Addr, port: U16, counter: int) {
    function Who(): Peer {
      Peer(ip, port)
    }
  }

  type Table = map<Peer, int>

  // ----- What the server does, on a map -----

  predicate Answers(m: Table, r: Received) {
    r.Message? && r.kind == OPEN && (Peer(r.ip, r.port) in m || |m| < MAX_CLIENTS)
  }

  function CounterAfter(m: Table, who: Peer): int {
    1 + if who in m then m[who] else 0
  }

  function Next(m: Table, r: Received): Table {
    if r.Message? && r.kind == CLOSE then m - {Peer(r.ip, r.port)}
    else if Answers(m, r) then m[Peer(r.ip, r.port) := CounterAfter(m, Peer(r.ip, r.port))]
    else m
  }

  /** The text of a reply: the message up to its first zero byte, where %.*s
      stops, a space and the counter. */
  function ReplyText(text: seq<Byte>, counter: int): seq<Byte> {
    UpToZero(text) + Ascii(" " + Itoa(counter))
  }

  /** The reply to a message fits the packet buffer. */
  predicate ReplyFits(m: Table, r: Received) {
    Answers(m, r) ==>
      IP_HEADER + UDP_HEADER + |ReplyText(r.text, CounterAfter(m, Peer(r.ip, r.port)))| <= BUF_SIZE
  }

  /** What the server does about one received packet: nothing, send a packet, or
      make up a reply that is too long for its packet buffer. */
  datatype Reaction = Quiet | Sent(packet: seq<Byte>) | TooLong

  function ReactionTo(ownIp: Addr, m: Table, r: Received): Reaction {
    if !Answers(m, r) then Quiet
    else if !ReplyFits(m, r) then TooLong
    else Sent(Packet(ownIp, PORT, r.ip, r.port, ReplyText(r.text, CounterAfter(m, Peer(r.ip, r.port)))))
  }

  // ----- The array holds the map -----

  /** The first n entries have distinct peers, and they are the map. */
  ghost predicate Holds(s: seq<ClientState>, m: Table) {
    && (forall i, j :: 0 <= i < j < |s| ==> s[i].Who() != s[j].Who())
    && (forall i :: 0 <= i < |s| ==> s[i].Who() in m && m[s[i].Who()] == s[i].counter)
    && (forall who :: who in m ==> exists i :: 0 <= i < |s| && s[i].Who() == who)
  }

  lemma {:induction false} SizesAgree(s: seq<ClientState>, m: Table)
    requires Holds(s, m)
    ensures |m| == |s|
  {
    if s == [] {
      assert m.Keys == {};
    } else {
      var who := s[|s| - 1].Who();
      LastHolds(s, m);
      SizesAgree(s[..|s| - 1], m - {who});
      assert m.Keys == (m - {who}).Keys + {who};
    }
  }

  lemma {:induction false} LastHolds(s: seq<ClientState>, m: Table)
    requires Holds(s, m) && s != []
    ensures Holds(s[..|s| - 1], m - {s[|s| - 1].Who()})
  {
    var s' := s[..|s| - 1];
    assert forall i :: 0 <= i < |s'| ==> s'[i] == s[i] && s[i].Who() != s[|s| - 1].Who();
    forall who | who in m && who != s[|s| - 1].Who() ensures exists i :: 0 <= i < |s'| && s'[i].Who() == who {
      var i :| 0 <= i < |s| && s[i].Who() == who;
      assert s'[i].Who() == who;
    }
  }

  /** Swap-remove of an entry removes its peer from the map and no other. */
  lemma {:induction false} SwapRemoveHolds(s: seq<ClientState>, m: Table, idx: nat)
    requires Holds(s, m) && idx < |s|
    ensures Holds(s[idx := s[|s| - 1]][..|s| - 1], m - {s[idx].Who()})
  {
    var last := |s| - 1;
    var s' := s[idx := s[last]][..last];
    forall who | who in m - {s[idx].Who()} ensures exists i :: 0 <= i < |s'| && s'[i].Who() == who {
      var i :| 0 <= i < |s| && s[i].Who() == who;
      assert s'[if i == last then idx else i].Who() == who;
    }
  }

  lemma {:induction false} AppendHolds(s: seq<ClientState>, m: Table, c: ClientState)
    requires Holds(s, m) && c.Who() !in m
    ensures Holds(s + [c], m[c.Who() := c.counter])
  {
    var s' := s + [c];
    assert s'[|s|].Who() == c.Who();
    forall who | who in m ensures exists i :: 0 <= i < |s'| && s'[i].Who() == who {
      var i :| 0 <= i < |s| && s[i].Who() == who;
      assert s'[i].Who() == who;
    }
  }

  lemma {:induction false} CountHolds(s: seq<ClientState>, m: Table, idx: nat, counter: int)
    requires Holds(s, m) && idx < |s|
    ensures Holds(s[idx := s[idx].(counter := counter)], m[s[idx].Who() := counter])
  {
    var s' := s[idx := s[idx].(counter := counter)];
    forall who | who in m ensures exists i :: 0 <= i < |s'| && s'[i].Who() == who {
      var i :| 0 <= i < |s| && s[i].Who() == who;
      assert s'[i].Who() == who;
    }
  }

  // ----- The server -----

  class Server {
    const ownIp: Addr
    const clients: array<ClientState>
    const packet: array<Byte>
    var nclients: nat
    ghost var table: Table

    ghost predicate Valid()
      reads this, clients
    {
      && clients.Length == MAX_CLIENTS && packet.Length == BUF_SIZE
      && nclients <= MAX_CLIENTS && Holds(clients[..nclients], table)
    }

    constructor (ownIp: Addr)
      ensures Valid() && table == map[] && fresh(clients) && fresh(packet)
    {
      this.ownIp := ownIp;
      clients := new ClientState[MAX_CLIENTS](_ => ClientState([0, 0, 0, 0], 0, 0));
      packet := new Byte[BUF_SIZE];
      nclients, table := 0, map[];
    }

    /** find_client */
    method FindClient(ip: Addr, port: U16) returns (idx: int)
      requires Valid()
      ensures Peer(ip, port) in table ==> 0 <= idx < nclients && clients[idx].Who() == Peer(ip, port)
      ensures Peer(ip, port) !in table ==> idx == -1
    {
      idx := 0;
      while idx < nclients
        invariant 0 <= idx <= nclients
        invariant forall k :: 0 <= k < idx ==> clients[..nclients][k].Who() != Peer(ip, port)
      {
        if clients[idx].ip == ip && clients[idx].port == port {
          assert clients[..nclients][idx].Who() in table;
          return;
        }
        idx := idx + 1;
      }
      idx := -1;
    }

    /** remove_client */
    method RemoveClient(idx: nat)
      requires Valid() && idx < nclients
      modifies this`nclients, this`table, clients
      ensures Valid() && table == old(table) - {old(clients[idx].Who())}
    {
      ghost var s := clients[..nclients];
      SwapRemoveHolds(s, table, idx);
      table := table - {s[idx].Who()};
      clients[idx] := clients[nclients - 1];
      nclients := nclients - 1;
      assert clients[..nclients] == s[idx := s[|s| - 1]][..|s| - 1];
    }

    /** One round of the receive loop: buf holds the bytes recvfrom returned. */
    method Handle(buf: seq<Byte>) returns (reaction: Reaction)
      requires Valid()
      modifies this`nclients, this`table, clients, packet
      ensures Valid() && table == Next(old(table), ParseRequest(buf))
      ensures reaction == ReactionTo(ownIp, old(table), ParseRequest(buf))
    {
      reaction := Dispatch(ParseRequest(buf));
    }

    /** The part of the receive loop behind the parsing. */
    method Dispatch(r: Received) returns (reaction: Reaction)
      requires Valid()
      modifies this`nclients, this`table, clients, packet
      ensures Valid() && table == Next(old(table), r)
      ensures reaction == ReactionTo(ownIp, old(table), r)
    {
      reaction := Quiet;
      if r.Message? && r.kind == CLOSE {
        Close(r.ip, r.port);
      } else if r.Message? && r.kind == OPEN {
        reaction := Answer(r);
      }
    }

    /** A C message. */
    method Close(ip: Addr, port: U16)
      requires Valid()
      modifies this`nclients, this`table, clients
      ensures Valid() && table == old(table) - {Peer(ip, port)}
    {
      var idx := FindClient(ip, port);
      if idx >= 0 {
        RemoveClient(idx);
      }
    }

    /** An M message. */
    method Answer(r: Received) returns (reaction: Reaction)
      requires r.Message? && r.kind == OPEN
      requires Valid()
      modifies this`nclients, this`table, clients, packet
      ensures Valid() && table == Next(old(table), r)
      ensures reaction == ReactionTo(ownIp, old(table), r)
    {
      reaction := Quiet;
      var idx := CountMessage(r.ip, r.port);
      if idx >= 0 {
        reaction := Reply(r.ip, r.port, ReplyText(r.text, clients[idx].counter));
      }
    }

    /** Builds the packet for a client. The program does not look at the length of
        the reply; what becomes of one that is too long is not modelled. */
    method Reply(ip: Addr, port: U16, reply: seq<Byte>) returns (reaction: Reaction)
      requires packet.Length == BUF_SIZE
      modifies packet
      ensures reaction == if |reply| <= ROOM then Sent(Packet(ownIp, PORT, ip, port, reply)) else TooLong
    {
      if |reply| > ROOM {
        return TooLong;
      }
      var plen := BuildPacket(packet, ownIp, PORT, ip, port, reply);
      reaction := Sent(packet[..plen]);
    }

    /** The receive loop over the packets that come in. */
    method Serve(received: seq<seq<Byte>>) returns (reactions: seq<Reaction>)
      requires Valid() && table == map[]
      modifies this`nclients, this`table, clients, packet
      ensures Valid() && table == TableAfter(Parsed(received)) && reactions == Reactions(ownIp, Parsed(received))
    {
      reactions := [];
      ghost var h := Parsed(received);
      var n := 0;
      while n < |received|
        invariant 0 <= n <= |received| && Valid() && table == TableAfter(h[..n])
        invariant reactions == Reactions(ownIp, h[..n])
      {
        var reaction := Handle(received[n]);
        OneRoundMore(ownIp, h, n);
        reactions := reactions + [reaction];
        n := n + 1;
      }
      assert h[..|received|] == h;
    }

    /** Finds or enters the client and counts its message; -1 if the table is full. */
    method CountMessage(ip: Addr, port: U16) returns (idx: int)
      requires Valid()
      modifies this`nclients, this`table, clients
      ensures Valid()
      ensures var who := Peer(ip, port);
        if who in old(table) || |old(table)| < MAX_CLIENTS then
          && 0 <= idx < nclients && clients[idx].counter == CounterAfter(old(table), who)
          && table == old(table)[who := CounterAfter(old(table), who)]
        else idx == -1 && table == old(table)
    {
      ghost var was, who := table, Peer(ip, port);
      idx := FindClient(ip, port);
      if idx < 0 {
        SizesAgree(clients[..nclients], table);
        if nclients >= MAX_CLIENTS {
          return;
        }
        idx := Enter(ip, port);
        assert was[who := 0][who := 1] == was[who := 1];
      }
      Count(idx);
    }

    /** The entry for a new client. */
    method Enter(ip: Addr, port: U16) returns (idx: nat)
      requires Valid() && Peer(ip, port) !in table && nclients < MAX_CLIENTS
      modifies this`nclients, this`table, clients
      ensures Valid() && table == old(table)[Peer(ip, port) := 0]
      ensures idx < nclients && clients[idx].Who() == Peer(ip, port)
    {
      ghost var s := clients[..nclients];
      idx := nclients;
      nclients := nclients + 1;
      clients[idx] := ClientState(ip, port, 0);
      AppendHolds(s, table, clients[idx]);
      table := table[Peer(ip, port) := 0];
      assert clients[..nclients] == s + [clients[idx]];
    }

    /** clients[idx].counter++ */
    method Count(idx: nat)
      requires Valid() && idx < nclients
      modifies this`table, clients
      ensures Valid() && clients[idx].Who() == old(clients[idx].Who())
      ensures clients[idx].Who() in old(table) && nclients == old(nclients)
      ensures clients[idx].counter == old(table)[clients[idx].Who()] + 1
      ensures table == old(table)[clients[idx].Who() := old(table)[clients[idx].Who()] + 1]
    {
      ghost var s, who, n := clients[..nclients], clients[idx].Who(), clients[idx].counter;
      assert s[idx].Who() in table && table[who] == n;
      CountHolds(s, table, idx, n + 1);
      clients[idx] := clients[idx].(counter := clients[idx].counter + 1);
      assert clients[..nclients] == s[idx := s[idx].(counter := n + 1)];
      table := table[who := n + 1];
    }
  }

  // ----- Every run -----

  function Parsed(received: seq<seq<Byte>>): (h: seq<Received>)
    ensures |h| == |received|
  {
    seq(|received|, k requires 0 <= k < |received| => ParseRequest(received[k]))
  }

  /** The table after a history of received packets. */
  function TableAfter(h: seq<Received>): Table {
    if h == [] then map[] else Next(TableAfter(h[..|h| - 1]), h[|h| - 1])
  }

  /** What the server did about each packet of a history. */
  function Reactions(ownIp: Addr, h: seq<Received>): (s: seq<Reaction>)
    ensures |s| == |h|
  {
    if h == [] then []
    else
      var before := h[..|h| - 1];
      Reactions(ownIp, before) + [ReactionTo(ownIp, TableAfter(before), h[|h| - 1])]
  }

  lemma OneRoundMore(ownIp: Addr, h: seq<Received>, n: nat)
    requires n < |h|
    ensures TableAfter(h[..n + 1]) == Next(TableAfter(h[..n]), h[n])
    ensures Reactions(ownIp, h[..n + 1]) == Reactions(ownIp, h[..n]) + [ReactionTo(ownIp, TableAfter(h[..n]), h[n])]
  {
    assert h[..n + 1][..n] == h[..n] && h[..n + 1][n] == h[n];
  }

  lemma {:induction false} ReactionAt(ownIp: Addr, h: seq<Received>, k: nat)
    requires k < |h|
    ensures Reactions(ownIp, h)[k] == ReactionTo(ownIp, TableAfter(h[..k]), h[k])
  {
    if k < |h| - 1 {
      ReactionAt(ownIp, h[..|h| - 1], k);
      assert h[..|h| - 1][..k] == h[..k];
    }
  }

  /** Messages of a client answered since it last closed. */
  function AnsweredSinceClose(h: seq<Received>, who: Peer): nat {
    if h == [] then 0
    else
      var r, before := h[|h| - 1], AnsweredSinceClose(h[..|h| - 1], who);
      if r.Message? && r.kind == CLOSE && Peer(r.ip, r.port) == who then 0
      else if Answers(TableAfter(h[..|h| - 1]), r) && Peer(r.ip, r.port) == who then before + 1
      else before
  }

  /** Over every run the table has at most 64 clients, just those with a message
      answered since their last close, each with the number of those messages. */
  lemma {:induction false} TableCountsMessages(h: seq<Received>, who: Peer)
    ensures |TableAfter(h)| <= MAX_CLIENTS
    ensures who in TableAfter(h) <==> AnsweredSinceClose(h, who) > 0
    ensures who in TableAfter(h) ==> TableAfter(h)[who] == AnsweredSinceClose(h, who)
  {
    if h != [] {
      var before, r := TableAfter(h[..|h| - 1]), h[|h| - 1];
      TableCountsMessages(h[..|h| - 1], who);
      if r.Message? && r.kind == CLOSE {
        assert (before - {Peer(r.ip, r.port)}).Keys <= before.Keys;
        SmallerMap(before - {Peer(r.ip, r.port)}, before);
      } else if Answers(before, r) {
        var peer := Peer(r.ip, r.port);
        assert before[peer := CounterAfter(before, peer)].Keys == before.Keys + {peer};
        assert peer in before ==> before.Keys + {peer} == before.Keys;
      }
    }
  }

  lemma SmallerMap(a: Table, b: Table)
    requires a.Keys <= b.Keys
    ensures |a| <= |b|
  {
    assert b.Keys == a.Keys + (b.Keys - a.Keys);
  }

  /** Each reply carries 1 plus the number of messages of that client answered
      since its last close. */
  lemma ReplyCarriesCount(h: seq<Received>, r: Received)
    requires Answers(TableAfter(h), r)
    ensures TableAfter(h + [r])[Peer(r.ip, r.port)] == 1 + AnsweredSinceClose(h, Peer(r.ip, r.port))
  {
    assert (h + [r])[..|h|] == h;
    TableCountsMessages(h, Peer(r.ip, r.port));
  }

  // ----- What the replies say -----

  /** The text a reply puts behind a message is its counter. */
  lemma CounterText(counter: nat)
    ensures var out := Ascii(" " + Itoa(counter));
      && |out| > 1 && out[0] == 32 && Chars(out[1..]) == Itoa(counter)
  {
    ItoaIsNumeral(counter);
    var s := Itoa(counter);
    assert IsNumeral(s) && s[0] != '-';
    var out := Ascii(" " + s);
    assert forall i :: 0 <= i < |s| ==> IsDigit(s[i]) && out[i + 1] == s[i] as int;
    assert Chars(out[1..]) == s;
  }

  /** A line that is a text, a space and a number as a decimal numeral. */
  ghost predicate Says(line: seq<Byte>, text: seq<Byte>, n: int) {
    && |line| > |text| + 1 && line[..|text|] == text && line[|text|] == 32
    && IsNumeral(Chars(line[|text| + 1..])) && Atoi(Chars(line[|text| + 1..])) == n
  }

  lemma ReplyTextSays(text: seq<Byte>, counter: nat)
    ensures Says(ReplyText(text, counter), UpToZero(text), counter)
  {
    var t, tail := UpToZero(text), Ascii(" " + Itoa(counter));
    CounterText(counter);
    ItoaIsNumeral(counter);
    assert (t + tail)[..|t|] == t && (t + tail)[|t|] == tail[0] && (t + tail)[|t| + 1..] == tail[1..];
  }

  lemma SentSays(ownIp: Addr, m: Table, r: Received)
    requires ReactionTo(ownIp, m, r).Sent? && CounterAfter(m, Peer(r.ip, r.port)) >= 0
    ensures var p := ReactionTo(ownIp, m, r).packet;
      && |p| >= 20 && p[12..16] == ownIp && p[16..20] == r.ip
      && Says(ParseReply(p, r.port, ownIp), UpToZero(r.text), CounterAfter(m, Peer(r.ip, r.port)))
  {
    var counter := CounterAfter(m, Peer(r.ip, r.port));
    var reply := ReplyText(r.text, counter);
    ReplyTextSays(r.text, counter);
    PacketHeader(ownIp, PORT, r.ip, r.port, reply);
    ReplyRoundTrip(ownIp, r.ip, r.port, reply, r.port, ownIp);
  }

  /** Over every history, a packet the server sends is for the sender of a message,
      which prints it as the text up to its first zero, a space, and the number
      of its messages answered since its last close, this one included. */
  lemma ReplyTellsCount(ownIp: Addr, h: seq<Received>, k: nat)
    requires k < |h| && Reactions(ownIp, h)[k].Sent?
    ensures h[k].Message? && h[k].kind == 77
    ensures var p, r := Reactions(ownIp, h)[k].packet, h[k];
      && |p| >= 20 && p[12..16] == ownIp && p[16..20] == r.ip
      && Says(ParseReply(p, r.port, ownIp), UpToZero(r.text), 1 + AnsweredSinceClose(h[..k], Peer(r.ip, r.port)))
  {
    ReactionAt(ownIp, h, k);
    TableCountsMessages(h[..k], Peer(h[k].ip, h[k].port));
    SentSays(ownIp, TableAfter(h[..k]), h[k]);
  }

  /** A C message starts the count of its sender anew. */
  lemma CloseStartsAnew(ownIp: Addr, h: seq<Received>, ip: Addr, port: U16, last: seq<Byte>, text: seq<Byte>)
    ensures var all := h + [Message(67, last, ip, port)] + [Message(77, text, ip, port)];
      var reaction := Reactions(ownIp, all)[|h| + 1];
      && Peer(ip, port) !in TableAfter(h + [Message(67, last, ip, port)])
      && (reaction.Sent? ==> Says(ParseReply(reaction.packet, port, ownIp), UpToZero(text), 1))
  {
    var closed := h + [Message(67, last, ip, port)];
    var all := closed + [Message(77, text, ip, port)];
    assert closed[..|h|] == h && all[..|h| + 1] == closed && all[|h| + 1] == Message(77, text, ip, port);
    if Reactions(ownIp, all)[|h| + 1].Sent? {
      ReplyTellsCount(ownIp, all, |h| + 1);
    }
  }

  /** The clients of a history that have a message answered since their last close. */
  ghost predicate IsOpen(h: seq<Received>, who: Peer) {
    AnsweredSinceClose(h, who) > 0
  }

  /** Nothing is done exactly about what is not an M message, and about an M
      message of a new client while 64 others are open. */
  lemma {:induction false} QuietIff(ownIp: Addr, h: seq<Received>, k: nat, open: set<Peer>)
    requires k < |h| && forall who :: who in open <==> IsOpen(h[..k], who)
    ensures Reactions(ownIp, h)[k] == Quiet <==>
      !(h[k].Message? && h[k].kind == 77 && (Peer(h[k].ip, h[k].port) in open || |open| < 64))
  {
    var before := TableAfter(h[..k]);
    ReactionAt(ownIp, h, k);
    forall who ensures who in before <==> who in open {
      TableCountsMessages(h[..k], who);
      assert who in open <==> IsOpen(h[..k], who);
    }
    assert before.Keys == open;
  }

  /** There is such a set of open clients in every history. */
  lemma OpenClients(h: seq<Received>) returns (open: set<Peer>)
    ensures forall who :: who in open <==> IsOpen(h, who)
    ensures |open| <= 64
  {
    open := TableAfter(h).Keys;
    forall who ensures who in open <==> IsOpen(h, who) {
      TableCountsMessages(h, who);
    }
    TableCountsMessages(h, Peer([0, 0, 0, 0], 0));
  }

  // ----- Which replies fit -----

  /** The packet of a reply fits the buffer if and only if the text up to its
      first zero and the digits of the counter leave room for the space between. */
  lemma ReplyFitsIff(m: Table, r: Received)
    requires Answers(m, r)
    ensures ReplyFits(m, r) <==>
      |UpToZero(r.text)| + 1 + |Itoa(CounterAfter(m, Peer(r.ip, r.port)))| <= 2020
  {
  }

  lemma {:induction false} UpToZeroIsShort(s: seq<Byte>)
    ensures |UpToZero(s)| <= |s|
    ensures 0 !in s ==> UpToZero(s) == s
  {
    if s != [] {
      UpToZeroIsShort(s[1..]);
      assert s == [s[0]] + s[1..];
    }
  }

  /** The longest packet the receive buffer holds, its text without a zero, is
      answered with a reply that does not fit, even as a client's first message. */
  lemma LongestMessageDoesNotFit(ip: Addr, port: U16, ownIp: Addr, text: seq<Byte>)
    requires |text| == ROOM - 1 && 0 !in text
    ensures var p := Packet(ip, port, ownIp, PORT, [OPEN] + text);
      |p| == BUF_SIZE && ReactionTo(ownIp, map[], ParseRequest(p)) == TooLong
  {
    RequestRoundTrip(ip, port, ownIp, OPEN, text);
    UpToZeroIsShort(text);
    ReplyFitsIff(map[], Message(OPEN, text, ip, port));
  }

  const LINE := 255  // characters fgets leaves a client's line

  /** A text that a client can type is answered with a reply that fits, while the
      counter is a 32-bit int. */
  lemma TypedTextFits(m: Table, r: Received)
    requires Answers(m, r) && |r.text| <= LINE && 0 <= CounterAfter(m, Peer(r.ip, r.port)) < 0x8000_0000
    ensures ReplyFits(m, r)
  {
    var counter := CounterAfter(m, Peer(r.ip, r.port));
    assert Pow10(10) == 100_0000_0000 by {
      assert Pow10(5) == 10_0000;
      assert Pow10(8) == 10_0000_000;
    }
    FewDigits(counter, 10);
    UpToZeroIsShort(r.text);
    ReplyFitsIff(m, r);
  }

  lemma {:induction false} AnsweredAtMostAll(h: seq<Received>, who: Peer)
    ensures AnsweredSinceClose(h, who) <= |h|
  {
    if h != [] { AnsweredAtMostAll(h[..|h| - 1], who); }
  }

  /** A packet send_payload made of a typed line, or of the closing C. */
  ghost predicate FromClient(packet: seq<Byte>) {
    exists ip, port, serverIp, kind, text ::
      |text| <= LINE && packet == Packet(ip, port, serverIp, PORT, [kind] + text)
  }

  /** In every history of fewer than 2^31 packets, a packet from a client of this
      repository is not answered with a reply that is too long, whatever the other
      packets are. */
  lemma ClientsAreServed(ownIp: Addr, received: seq<seq<Byte>>, k: nat)
    requires k < |received| <= 0x7FFF_FFFF && FromClient(received[k])
    ensures Reactions(ownIp, Parsed(received))[k] != TooLong
  {
    ReactionAt(ownIp, Parsed(received), k);
    var before, r := Parsed(received)[..k], ParseRequest(received[k]);
    var ip, port, serverIp, kind, text :|
      |text| <= LINE && received[k] == Packet(ip, port, serverIp, PORT, [kind] + text);
    RequestRoundTrip(ip, port, serverIp, kind, text);
    if Answers(TableAfter(before), r) {
      TableCountsMessages(before, Peer(ip, port));
      AnsweredAtMostAll(before, Peer(ip, port));
      TypedTextFits(TableAfter(before), r);
    }
  }
}
