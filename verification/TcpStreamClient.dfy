/** The TCP client: exact reads over arbitrary recv results, drop on error, reconnect with backoff. */
module TcpStream {
  import opened Bytes
  import opened Framing
  import opened Records

  const MIN_DELAY: nat := 1000
  const MAX_DELAY: nat := 30000

  // ----- The operating system, as a script -----

  /** What the socket answers: a run of bytes (handed out as far as asked for), EINTR, an error, or end of file. */
  datatype RecvEvent = Chunk(bytes: seq<Byte>) | Interrupted | Failed | Closed

  /** What a connection attempt meets. A script that has run out means end of file, or a refusal. */
  datatype Outcome = Refused | Accepted(script: seq<RecvEvent>)

  // The bytes a connection can still deliver.
  function Stream(script: seq<RecvEvent>): seq<Byte> {
    if script == [] then []
    else
      match script[0]
      case Chunk(b) => if b == [] then [] else b + Stream(script[1..])
      case Interrupted => Stream(script[1..])
      case Failed => []
      case Closed => []
  }

  function Streams(network: seq<Outcome>): (ss: seq<Option<seq<Byte>>>)
    ensures |ss| == |network|
  {
    if network == [] then []
    else [if network[0].Refused? then None else Some(Stream(network[0].script))] + Streams(network[1..])
  }

  // Steps a script can still take: every byte and every event counts.
  function Steps(script: seq<RecvEvent>): nat {
    if script == [] then 0
    else (if script[0].Chunk? then |script[0].bytes| else 0) + 1 + Steps(script[1..])
  }

  // ----- The client's abstract state and behaviour -----

  datatype Link = Link(open: bool, running: bool, delay: nat, stream: seq<Byte>, network: seq<Option<seq<Byte>>>)

  datatype Received = Message(bytes: seq<Byte>) | NoMessage(rc: int)

  function AfterConnect(l: Link): Link {
    if l.network != [] && l.network[0].Some?
    then l.(open := true, delay := MIN_DELAY, stream := l.network[0].value, network := l.network[1..])
    else l.(open := false, stream := [], network := if l.network == [] then [] else l.network[1..])
  }

  function AfterReconnect(l: Link): Link {
    var c := AfterConnect(l);
    if c.open then c else c.(delay := Min(2 * l.delay, MAX_DELAY))
  }

  function AfterReceive(l: Link, cap: nat): Link {
    if !l.open then if l.running then AfterReconnect(l) else l
    else
      match NextFrame(l.stream, cap)
      case None => l.(open := false, stream := [])
      case Some(n) => l.(stream := l.stream[n..])
  }

  function ReceiveResult(l: Link, cap: nat): Received {
    if !l.open then NoMessage(if l.running && AfterReconnect(l).open then 0 else -1)
    else
      match NextFrame(l.stream, cap)
      case None => NoMessage(-1)
      case Some(n) => Message(l.stream[..n])
  }

  function AfterClose(l: Link): Link {
    l.(open := false, running := false, stream := [])
  }

  // A whole frame at the head of the stream that the buffer has room for.
  predicate WholeFrame(s: seq<Byte>, cap: nat) {
    |s| >= 8 && 8 + BeNumber(s[4..8]) <= |s| && 8 + BeNumber(s[4..8]) <= cap
  }

  /**
   * One Receive, case by case: the frame at the head of an open connection, or the connection is dropped;
   * one attempt if there is none, which opens it with the delay at 1000 or doubles the delay up to 30000;
   * and nothing at all once the client is closed.
   */
  lemma ReceiveExactly(l: Link, cap: nat)
    ensures l.open && WholeFrame(l.stream, cap) ==>
              var n := 8 + BeNumber(l.stream[4..8]);
              ReceiveResult(l, cap) == Message(l.stream[..n]) && AfterReceive(l, cap) == l.(stream := l.stream[n..])
    ensures l.open && !WholeFrame(l.stream, cap) ==>
              ReceiveResult(l, cap) == NoMessage(-1)
              && AfterReceive(l, cap) == Link(false, l.running, l.delay, [], l.network)
    ensures !l.open && l.running && l.network != [] && l.network[0].Some? ==>
              ReceiveResult(l, cap) == NoMessage(0)
              && AfterReceive(l, cap) == Link(true, true, 1000, l.network[0].value, l.network[1..])
    ensures !l.open && l.running && l.network != [] && l.network[0].None? ==>
              ReceiveResult(l, cap) == NoMessage(-1)
              && AfterReceive(l, cap) == Link(false, true, Min(2 * l.delay, 30000), [], l.network[1..])
    ensures !l.open && l.running && l.network == [] ==>
              ReceiveResult(l, cap) == NoMessage(-1)
              && AfterReceive(l, cap) == Link(false, true, Min(2 * l.delay, 30000), [], [])
    ensures !l.open && !l.running ==> ReceiveResult(l, cap) == NoMessage(-1) && AfterReceive(l, cap) == l
  {
    NextExactly(l.stream, cap);
  }

  /** One Connect, case by case: it drops what was open, and a refusal leaves the delay alone. */
  lemma ConnectExactly(l: Link)
    ensures l.network != [] && l.network[0].Some? ==>
              AfterConnect(l) == Link(true, l.running, 1000, l.network[0].value, l.network[1..])
    ensures l.network != [] && l.network[0].None? ==>
              AfterConnect(l) == Link(false, l.running, l.delay, [], l.network[1..])
    ensures l.network == [] ==> AfterConnect(l) == Link(false, l.running, l.delay, [], [])
  {
  }

  // What was in front, and then the first `n` bytes of the stream.
  predicate ReadSoFar(b: seq<Byte>, head: seq<Byte>, s: seq<Byte>, n: nat) {
    n <= |s| && b == head + s[..n]
  }

  lemma ReadOn(before: seq<Byte>, b: seq<Byte>, head: seq<Byte>, s: seq<Byte>, n: nat, m: nat)
    requires n + m <= |s|
    requires ReadSoFar(before, head, s, n) && ReadSoFar(b, before, s[n..], m)
    ensures ReadSoFar(b, head, s, n + m) && s[n..][m..] == s[n + m..]
  {
    assert s[..n + m] == s[..n] + s[n..][..m];
  }

  // ----- The client -----

  class TcpStreamClient {
    var open: bool
    var running: bool
    var hasSocket: bool
    var reconnectDelay: nat
    // The environment: events still to come on this connection, attempts still to come, sleeps so far.
    var incoming: seq<RecvEvent>
    var network: seq<Outcome>
    var slept: seq<nat>

    function Value(): Link
      reads this
    {
      Link(open, running, reconnectDelay, if open then Stream(incoming) else [], Streams(network))
    }

    ghost predicate Valid()
      reads this
    {
      open ==> hasSocket
    }

    constructor (network: seq<Outcome>)
      ensures Valid() && Value() == Link(false, true, MIN_DELAY, [], Streams(network)) && slept == []
    {
      open, running, hasSocket, reconnectDelay := false, true, false, MIN_DELAY;
      incoming, this.network, slept := [], network, [];
    }

    method Connect() returns (rc: int)
      requires Valid()
      modifies this
      ensures Valid() && Value() == AfterConnect(old(Value())) && slept == old(slept)
      ensures rc == if open then 0 else -1
      ensures open <==> old(network) != [] && old(network)[0].Accepted?
      ensures open ==> incoming == old(network)[0].script && reconnectDelay == 1000
      ensures !open ==> reconnectDelay == old(reconnectDelay)
      ensures network == (if old(network) == [] then [] else old(network)[1..]) && running == old(running)
    {
      if hasSocket {
        open := false;
      }
      var outcome := Refused;
      if network != [] {
        outcome, network := network[0], network[1..];
      }
      if outcome.Refused? {
        return -1;
      }
      hasSocket := true;
      incoming := outcome.script;
      open := true;
      reconnectDelay := MIN_DELAY;
      return 0;
    }

    method TryReconnect() returns (rc: int)
      requires Valid() && !open
      modifies this
      ensures Valid()
      ensures Value() == if old(running) then AfterReconnect(old(Value())) else old(Value())
      ensures rc == if open then 0 else -1
      ensures slept == old(slept) + if old(running) then [old(reconnectDelay)] else []
      ensures old(running) ==> reconnectDelay == if open then 1000 else Min(2 * old(reconnectDelay), 30000)
    {
      if !running {
        return -1;
      }
      if hasSocket {
        hasSocket := false;
      }
      open := false;
      slept := slept + [reconnectDelay];
      rc := Connect();
      if rc == 0 {
        reconnectDelay := MIN_DELAY;
        return 0;
      }
      reconnectDelay := Min(reconnectDelay * 2, MAX_DELAY);
      return -1;
    }

    /** One recv of at most n bytes into buf: the count, 0 at end of file, -1 on error, -2 on EINTR. */
    method Recv(buf: array<Byte>, at: nat, n: nat) returns (ret: int)
      requires 0 < n && at + n <= buf.Length
      modifies this`incoming, buf
      ensures ret <= n
      ensures ret > 0 ==>
                && ReadSoFar(buf[..at + ret], old(buf[..at]), Stream(old(incoming)), ret)
                && Stream(incoming) == Stream(old(incoming))[ret..]
      ensures ret == 0 || ret == -1 ==> Stream(old(incoming)) == []
      ensures ret == -2 ==> Stream(incoming) == Stream(old(incoming))
      ensures ret < 0 ==> ret == -1 || ret == -2
      ensures ret != 0 && ret != -1 ==> Steps(incoming) < Steps(old(incoming))
      ensures ret <= 0 ==> buf[..at] == old(buf[..at])
    {
      if incoming == [] {
        return 0;
      }
      match incoming[0]
      case Interrupted =>
        incoming := incoming[1..];
        return -2;
      case Failed =>
        return -1;
      case Closed =>
        return 0;
      case Chunk(b) =>
        if b == [] {
          return 0;
        }
        var k := Min(n, |b|);
        forall i | 0 <= i < k {
          buf[at + i] := b[i];
        }
        ret := k;
        ghost var s := Stream(incoming);
        assert s == b + Stream(incoming[1..]);
        var rest := incoming[1..];
        if k < |b| {
          incoming := [Chunk(b[k..])] + rest;
          assert incoming[1..] == rest;
        } else {
          incoming := rest;
        }
        assert buf[..at + k] == buf[..at] + b[..k] && b[..k] == s[..k];
        assert s[k..] == b[k..] + Stream(rest);
    }

    /** recv_exact: reads exactly n bytes if the connection still has them, whatever the cuts. */
    method RecvExact(buf: array<Byte>, at: nat, n: nat) returns (ok: bool)
      requires at + n <= buf.Length
      modifies this`incoming, buf
      ensures ok <==> |Stream(old(incoming))| >= n
      ensures ok ==>
                && ReadSoFar(buf[..at + n], old(buf[..at]), Stream(old(incoming)), n)
                && Stream(incoming) == Stream(old(incoming))[n..]
    {
      ghost var s, head := Stream(incoming), buf[..at];
      ghost var sofar := head;
      var received := 0;
      while received < n
        invariant received <= n && ReadSoFar(sofar, head, s, received)
        invariant buf[..at + received] == sofar && Stream(incoming) == s[received..]
        decreases Steps(incoming)
      {
        var ret := Recv(buf, at + received, n - received);
        if ret < 0 {
          if ret == -2 {
            continue;
          }
          return false;
        }
        if ret == 0 {
          return false;
        }
        ReadOn(sofar, buf[..at + received + ret], head, s, received, ret);
        received := received + ret;
        sofar := buf[..at + received];
      }
      return true;
    }

    // The next frame of an open connection, in buf[..n]; on anything else -1, the rest not to be read.
    method ReadFrame(buf: array<Byte>) returns (n: int)
      requires open
      modifies this`incoming, buf
      ensures match NextFrame(Stream(old(incoming)), buf.Length)
              case None => n == -1
              case Some(k) =>
                n == k && buf[..k] == Stream(old(incoming))[..k] && Stream(incoming) == Stream(old(incoming))[k..]
    {
      ghost var s := Stream(incoming);
      var hdr := new Byte[8];
      var ok := RecvExact(hdr, 0, 8);
      if !ok {
        return -1;
      }
      var length: nat := UnpackBe32(hdr[..], 4);
      assert hdr[..] == hdr[..8] == s[..8];
      PrefixLocal(s[..8], s);
      var total: nat := 8 + length;
      if total > buf.Length {
        return -1;
      }
      forall i | 0 <= i < 8 {
        buf[i] := hdr[i];
      }
      assert buf[..8] == s[..8];
      ok := RecvExact(buf, 8, length);
      if !ok {
        return -1;
      }
      ReadOn(s[..8], buf[..total], [], s, 8, length);
      return total;
    }

    /** Receive: one whole message in buf[..n], or 0 after a reconnect, or -1. */
    method Receive(buf: array<Byte>) returns (n: int)
      requires Valid()
      modifies this, buf
      ensures Valid() && Value() == AfterReceive(old(Value()), buf.Length)
      ensures match ReceiveResult(old(Value()), buf.Length)
              case Message(m) => n == |m| && buf[..n] == m
              case NoMessage(rc) => n == rc
      ensures slept == old(slept) + if !old(open) && old(running) then [old(reconnectDelay)] else []
    {
      if !open {
        n := TryReconnect();
        return;
      }
      n := ReadFrame(buf);
      if n < 0 {
        open := false;
      }
    }

    method Close()
      modifies this
      ensures Valid() && Value() == AfterClose(old(Value())) && slept == old(slept)
      ensures !open && !running && reconnectDelay == old(reconnectDelay) && network == old(network)
    {
      running := false;
      open := false;
      hasSocket := false;
    }
  }

}
