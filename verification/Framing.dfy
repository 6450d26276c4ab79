/** Length-prefixed framing of a byte stream: what a SOME/IP stream means, however it is read. */
module Framing {
  import opened Bytes
  import opened Records

  const PREFIX: nat := 8

  // The size of the frame at the head of the stream, if it is whole and fits `cap` bytes.
  function NextFrame(s: seq<Byte>, cap: nat): (n: Option<nat>)
    ensures n.Some? ==> PREFIX <= n.value <= |s| && n.value <= cap
  {
    if |s| < PREFIX then None
    else
      var total := PREFIX + UnpackBe32(s, 4);
      if total > cap || |s| < total then None else Some(total)
  }

  /** A frame is 8 bytes and as many as the big-endian number in the second four of them says. */
  lemma NextExactly(s: seq<Byte>, cap: nat)
    ensures NextFrame(s, cap).Some? <==>
              |s| >= 8 && 8 + BeNumber(s[4..8]) <= |s| && 8 + BeNumber(s[4..8]) <= cap
    ensures NextFrame(s, cap).Some? ==> NextFrame(s, cap).value == 8 + BeNumber(s[4..8])
  {
    if |s| >= 8 { Be32IsNumber(s, 4); }
  }

  /** The pure split: frames off the head until one is oversize or incomplete. */
  function Frames(s: seq<Byte>, cap: nat): seq<seq<Byte>>
    decreases |s|
  {
    match NextFrame(s, cap)
    case None => []
    case Some(n) => [s[..n]] + Frames(s[n..], cap)
  }

  predicate WellFormed(f: seq<Byte>, cap: nat) {
    PREFIX <= |f| <= cap && |f| == PREFIX + UnpackBe32(f, 4)
  }

  lemma PrefixLocal(s: seq<Byte>, t: seq<Byte>)
    requires |s| >= PREFIX && s <= t
    ensures UnpackBe32(s, 4) == UnpackBe32(t, 4)
  {
    assert forall i :: 0 <= i < |s| ==> s[i] == t[i];
  }

  lemma FramesFirst(f: seq<Byte>, rest: seq<Byte>, cap: nat)
    requires WellFormed(f, cap)
    ensures Frames(f + rest, cap) == [f] + Frames(rest, cap)
  {
    PrefixLocal(f, f + rest);
    assert (f + rest)[..|f|] == f && (f + rest)[|f|..] == rest;
  }

  lemma Prepend(a: seq<seq<Byte>>, b: seq<seq<Byte>>)
    requires a != []
    ensures [a[0]] + (a[1..] + b) == a + b
  {
  }

  lemma FlatSplits(fs: seq<seq<Byte>>, rest: seq<Byte>)
    requires fs != []
    ensures Flat(fs) + rest == fs[0] + (Flat(fs[1..]) + rest)
  {
  }

  predicate AllWellFormed(fs: seq<seq<Byte>>, cap: nat) {
    forall i :: 0 <= i < |fs| ==> WellFormed(fs[i], cap)
  }

  /** Framing inverts concatenation: well-formed frames come back, then whatever the rest yields. */
  lemma {:induction false} FramesOfFlat(fs: seq<seq<Byte>>, rest: seq<Byte>, cap: nat)
    requires AllWellFormed(fs, cap)
    ensures Frames(Flat(fs) + rest, cap) == fs + Frames(rest, cap)
    decreases |fs|
  {
    if fs == [] {
      assert Flat(fs) + rest == rest;
    } else {
      FlatSplits(fs, rest);
      FramesFirst(fs[0], Flat(fs[1..]) + rest, cap);
      FramesOfFlat(fs[1..], rest, cap);
      Prepend(fs, Frames(rest, cap));
    }
  }

  // The bytes after the last whole frame.
  function Leftover(s: seq<Byte>, cap: nat): (r: seq<Byte>)
    ensures NextFrame(r, cap) == None
    decreases |s|
  {
    match NextFrame(s, cap)
    case None => s
    case Some(n) => Leftover(s[n..], cap)
  }

  lemma FirstIsWellFormed(s: seq<Byte>, cap: nat, n: nat)
    requires NextFrame(s, cap) == Some(n)
    ensures WellFormed(s[..n], cap) && s == s[..n] + s[n..]
  {
    PrefixLocal(s[..n], s);
  }

  lemma OneMoreSlice(f: seq<Byte>, fs: seq<seq<Byte>>, rest: seq<Byte>, s: seq<Byte>, t: seq<Byte>, cap: nat)
    requires s == f + t && t == Flat(fs) + rest && WellFormed(f, cap) && AllWellFormed(fs, cap)
    ensures s == Flat([f] + fs) + rest && AllWellFormed([f] + fs, cap)
  {
    FlatSplits([f] + fs, rest);
    assert ([f] + fs)[1..] == fs;
  }

  /** The frames of a stream are well-formed, consecutive slices of it, and none is missed. */
  lemma {:induction false} FramesAreSlices(s: seq<Byte>, cap: nat)
    ensures s == Flat(Frames(s, cap)) + Leftover(s, cap)
    ensures AllWellFormed(Frames(s, cap), cap)
    decreases |s|
  {
    match NextFrame(s, cap)
    case None =>
    case Some(n) =>
      FramesAreSlices(s[n..], cap);
      FirstIsWellFormed(s, cap, n);
      OneMoreSlice(s[..n], Frames(s[n..], cap), Leftover(s[n..], cap), s, s[n..], cap);
  }

  // ----- The diagnostic tool's accumulate-and-slice framer -----

  const TOOL_HEADER: nat := 16

  function ToolNext(buf: seq<Byte>): (n: Option<nat>)
    ensures n.Some? ==> 0 < n.value <= |buf|
  {
    if |buf| < TOOL_HEADER then None
    else
      var total := PREFIX + UnpackBe32(buf, 4);
      if |buf| < total then None else Some(total)
  }

  /** The tool's frame is the same one, but it takes 16 bytes to look for it and no buffer limits it. */
  lemma ToolNextExactly(s: seq<Byte>)
    ensures ToolNext(s).Some? <==> |s| >= 16 && 8 + BeNumber(s[4..8]) <= |s|
    ensures ToolNext(s).Some? ==> ToolNext(s).value == 8 + BeNumber(s[4..8])
  {
    if |s| >= 16 { Be32IsNumber(s, 4); }
  }

  function ToolCut(buf: seq<Byte>): seq<seq<Byte>>
    decreases |buf|
  {
    match ToolNext(buf)
    case None => []
    case Some(n) => [buf[..n]] + ToolCut(buf[n..])
  }

  function ToolRest(buf: seq<Byte>): (r: seq<Byte>)
    ensures ToolNext(r) == None
    decreases |buf|
  {
    match ToolNext(buf)
    case None => buf
    case Some(n) => ToolRest(buf[n..])
  }

  lemma ToolCutFirst(s: seq<Byte>, packet: seq<Byte>, rest: seq<Byte>)
    requires s == packet + rest && ToolNext(s) == Some(|packet|)
    ensures ToolCut(s) == [packet] + ToolCut(rest) && ToolRest(s) == ToolRest(rest)
  {
    assert s[..|packet|] == packet && s[|packet|..] == rest;
  }

  /** Cutting what has arrived so far and going on later cuts the same packets. */
  lemma {:induction false} ToolCutResumes(a: seq<Byte>, b: seq<Byte>)
    ensures ToolCut(a + b) == ToolCut(a) + ToolCut(ToolRest(a) + b)
    ensures ToolRest(a + b) == ToolRest(ToolRest(a) + b)
    decreases |a|
  {
    match ToolNext(a)
    case None =>
    case Some(n) =>
      PrefixLocal(a, a + b);
      ToolCutFirst(a + b, a[..n], a[n..] + b);
      ToolCutResumes(a[n..], b);
      Prepend(ToolCut(a), ToolCut(ToolRest(a) + b));
      assert ToolCut(a)[1..] == ToolCut(a[n..]);
  }

  lemma ToolCutLoop(done: seq<seq<Byte>>, buf: seq<Byte>, n: nat, all: seq<Byte>)
    requires ToolNext(buf) == Some(n) && done + ToolCut(buf) == ToolCut(all) && ToolRest(buf) == ToolRest(all)
    ensures (done + [buf[..n]]) + ToolCut(buf[n..]) == ToolCut(all) && ToolRest(buf[n..]) == ToolRest(all)
  {
    assert done + ([buf[..n]] + ToolCut(buf[n..])) == (done + [buf[..n]]) + ToolCut(buf[n..]);
  }

  /** The receive loop of run_tcp, over the chunks recv returned until the connection closed. */
  method RunTool(chunks: seq<seq<Byte>>) returns (packets: seq<seq<Byte>>, buf: seq<Byte>)
    ensures packets == ToolCut(Flat(chunks)) && buf == ToolRest(Flat(chunks))
  {
    packets, buf := [], [];
    for i := 0 to |chunks|
      invariant packets == ToolCut(Flat(chunks[..i])) && buf == ToolRest(Flat(chunks[..i]))
    {
      ghost var before := Flat(chunks[..i]);
      ghost var all := before + chunks[i];
      ToolCutResumes(before, chunks[i]);
      buf := buf + chunks[i];
      while |buf| >= TOOL_HEADER
        invariant packets + ToolCut(buf) == ToolCut(all) && ToolRest(buf) == ToolRest(all)
        decreases |buf|
      {
        var tlen := PREFIX + UnpackBe32(buf, 4);
        if |buf| < tlen {
          break;
        }
        ToolCutLoop(packets, buf, tlen, all);
        packets := packets + [buf[..tlen]];
        buf := buf[tlen..];
      }
      assert ToolNext(buf) == None;
      assert chunks[..i + 1] == chunks[..i] + [chunks[i]];
      FlatLast(chunks[..i], chunks[i]);
    }
    assert chunks[..|chunks|] == chunks;
  }

  /** Every frame in the stream fits the receive buffer and holds at least the second header half. */
  predicate Regular(s: seq<Byte>, cap: nat)
    decreases |s|
  {
    |s| < PREFIX ||
    var total := PREFIX + UnpackBe32(s, 4);
    TOOL_HEADER <= total <= cap && (|s| < total || Regular(s[total..], cap))
  }

  /** On regular streams the tool and the driver extract the same messages. */
  lemma {:induction false} ToolAgrees(s: seq<Byte>, cap: nat)
    requires Regular(s, cap)
    ensures ToolCut(s) == Frames(s, cap)
    decreases |s|
  {
    if NextFrame(s, cap).Some? {
      ToolAgrees(s[NextFrame(s, cap).value..], cap);
    }
  }

  // ----- Where the two framers differ -----

  /** The stream ends, for the driver, in a frame with too little behind it for the tool's 16 bytes. */
  predicate ShortTail(s: seq<Byte>, cap: nat) {
    var fs := Frames(s, cap);
    fs != [] && |fs[|fs| - 1]| + |Leftover(s, cap)| < TOOL_HEADER
  }

  /** The driver stops at a whole frame too large for its buffer. */
  predicate StopsAtOversize(s: seq<Byte>, cap: nat) {
    var rest := Leftover(s, cap);
    |rest| >= TOOL_HEADER && cap < PREFIX + UnpackBe32(rest, 4) <= |rest|
  }

  lemma OversizeIsCut(s: seq<Byte>, cap: nat)
    ensures StopsAtOversize(s, cap) <==> ToolCut(Leftover(s, cap)) != []
  {
  }

  lemma FramesHead(s: seq<Byte>, cap: nat, n: nat)
    requires NextFrame(s, cap) == Some(n)
    ensures Frames(s, cap) == [s[..n]] + Frames(s[n..], cap) && Leftover(s, cap) == Leftover(s[n..], cap)
  {
  }

  // One frame on: what is left decides the same way, unless this frame is the last.
  lemma ShortTailLater(s: seq<Byte>, cap: nat, n: nat)
    requires NextFrame(s, cap) == Some(n)
    ensures Frames(s[n..], cap) != [] ==> |s| >= TOOL_HEADER && (ShortTail(s, cap) <==> ShortTail(s[n..], cap))
    ensures Frames(s[n..], cap) == [] ==> Leftover(s, cap) == s[n..] && (ShortTail(s, cap) <==> |s| < TOOL_HEADER)
  {
    FramesHead(s, cap, n);
    var fs, rest := Frames(s, cap), Frames(s[n..], cap);
    if rest != [] {
      assert fs[|fs| - 1] == rest[|rest| - 1];
    } else {
      assert fs == [s[..n]];
    }
  }

  lemma ToolCutHead(s: seq<Byte>, n: nat, fs: seq<seq<Byte>>)
    requires ToolNext(s) == Some(n)
    ensures ToolCut(s) == [s[..n]] + ToolCut(s[n..])
    ensures fs != [] ==> ([s[..n]] + fs)[..|fs|] == [s[..n]] + fs[..|fs| - 1]
  {
  }

  /**
   * On every stream whatever: the tool cuts the driver's frames, all but a short last one, and goes on
   * where the driver stops at an oversize frame.
   */
  lemma {:induction false} ToolCutsAll(s: seq<Byte>, cap: nat)
    ensures var fs := Frames(s, cap);
            ToolCut(s) == if ShortTail(s, cap) then fs[..|fs| - 1] else fs + ToolCut(Leftover(s, cap))
    decreases |s|
  {
    match NextFrame(s, cap)
    case None =>
      assert [] + ToolCut(s) == ToolCut(s);
    case Some(n) =>
      ToolCutsAll(s[n..], cap);
      ShortTailLater(s, cap, n);
      FramesHead(s, cap, n);
      var rest := Frames(s[n..], cap);
      if |s| >= TOOL_HEADER {
        ToolCutHead(s, n, rest);
        assert ([s[..n]] + rest) + ToolCut(Leftover(s, cap)) == [s[..n]] + (rest + ToolCut(Leftover(s, cap)));
      } else {
        assert ToolCut(s) == [] == [s[..n]][..0];
      }
  }

  /**
   * So the tool and the driver extract the same messages from a stream exactly when it does not end in
   * a frame with less than 16 bytes from its start on, and the driver does not stop at a whole frame
   * too large for its buffer.
   */
  lemma FramersAgreeExactly(s: seq<Byte>, cap: nat)
    ensures ToolCut(s) == Frames(s, cap) <==> !ShortTail(s, cap) && !StopsAtOversize(s, cap)
  {
    var fs := Frames(s, cap);
    ToolCutsAll(s, cap);
    OversizeIsCut(s, cap);
    if ShortTail(s, cap) {
      assert |fs[..|fs| - 1]| < |fs|;
    } else {
      assert |fs + ToolCut(Leftover(s, cap))| == |fs| + |ToolCut(Leftover(s, cap))|;
    }
  }

  /** Every whole frame in the stream fits the buffer. */
  predicate Fits(s: seq<Byte>, cap: nat)
    decreases |s|
  {
    |s| < PREFIX ||
    var total := PREFIX + UnpackBe32(s, 4);
    |s| < total || (total <= cap && Fits(s[total..], cap))
  }

  lemma {:induction false} FitsHasNoOversize(s: seq<Byte>, cap: nat)
    requires Fits(s, cap)
    ensures !StopsAtOversize(s, cap)
    decreases |s|
  {
    if NextFrame(s, cap).Some? {
      FramesHead(s, cap, NextFrame(s, cap).value);
      FitsHasNoOversize(s[NextFrame(s, cap).value..], cap);
    }
  }

  lemma FirstOf(f: seq<Byte>, a: seq<seq<Byte>>, b: seq<seq<Byte>>)
    ensures [f] + (a + b) == ([f] + a) + b
  {
  }

  /** Where every frame fits, what the tool has not cut it still holds. */
  lemma {:induction false} MissedIsHeld(s: seq<Byte>, cap: nat)
    requires Fits(s, cap)
    ensures Frames(s, cap) == ToolCut(s) + Frames(ToolRest(s), cap)
    decreases |s|
  {
    if ToolNext(s).Some? {
      var n := ToolNext(s).value;
      MissedIsHeld(s[n..], cap);
      FramesHead(s, cap, n);
      ToolCutHead(s, n, []);
      FirstOf(s[..n], ToolCut(s[n..]), Frames(ToolRest(s), cap));
    }
  }

  /** Where every frame fits, the tool misses a frame exactly when the stream ends in a short one. */
  lemma {:induction false} ToolMissesOnlyShortTail(s: seq<Byte>, cap: nat)
    requires Fits(s, cap)
    ensures ToolCut(s) == Frames(s, cap) <==> !ShortTail(s, cap)
    ensures Frames(s, cap) == ToolCut(s) + Frames(ToolRest(s), cap)
  {
    FitsHasNoOversize(s, cap);
    FramersAgreeExactly(s, cap);
    MissedIsHeld(s, cap);
  }

  const SHORT_FRAME: seq<Byte> := Zeros(8)
  const LARGE_FRAME: seq<Byte> := [0, 0, 0, 0, 0, 0, 0, 16] + Zeros(16)

  /** A stream that is one frame of 8 bytes: the driver returns it and the tool does not. */
  lemma ShortTailShows(cap: nat)
    requires cap >= 8
    ensures Frames(SHORT_FRAME, cap) == [SHORT_FRAME] && ToolCut(SHORT_FRAME) == []
  {
    assert SHORT_FRAME[..8] == SHORT_FRAME;
  }

  /** A stream that is one frame of 24 bytes, and a smaller buffer: the tool returns it and the driver does not. */
  lemma OversizeShows(cap: nat)
    requires cap < 24
    ensures Frames(LARGE_FRAME, cap) == [] && ToolCut(LARGE_FRAME) == [LARGE_FRAME]
  {
    assert UnpackBe32(LARGE_FRAME, 4) == 16;
    assert LARGE_FRAME[..24] == LARGE_FRAME;
  }
}
