/** Three outputs of a task over one stream: src/evqueue_agent.cpp writes it, src/Process/Monitor.cpp takes it apart. */
module AgentMux {
  import opened Decimal
  import opened DataSerializer
  import opened DataRoundTrips

  const MAXFD := 3
  const CHUNK := 4096

  /** A piece of the output of pipe i, which stands for file descriptor 1 + i of the task. */
  datatype Frame = Frame(pipe: nat, chunk: string)

  predicate IsFrame(f: Frame) { f.pipe < MAXFD && 1 <= |f.chunk| <= CHUNK }

  function FrameText(f: Frame): string { Padded(1 + f.pipe, 2) + Padded(|f.chunk|, 9) + f.chunk }

  function StreamText(fs: seq<Frame>): string {
    if fs == [] then [] else FrameText(fs[0]) + StreamText(fs[1..])
  }

  /** All that pipe i gave. */
  function OfPipe(fs: seq<Frame>, i: nat): string {
    if fs == [] then [] else (if fs[0].pipe == i then fs[0].chunk else []) + OfPipe(fs[1..], i)
  }

  lemma {:induction false} TextAppend(fs: seq<Frame>, f: Frame)
    ensures StreamText(fs + [f]) == StreamText(fs) + FrameText(f)
  {
    hide FrameText;
    if fs == [] {
      assert [] + [f] == [f];
    } else {
      TextAppend(fs[1..], f);
      assert (fs + [f])[1..] == fs[1..] + [f];
    }
  }

  lemma {:induction false} OfPipeAppend(fs: seq<Frame>, f: Frame, i: nat)
    ensures OfPipe(fs + [f], i) == OfPipe(fs, i) + if f.pipe == i then f.chunk else []
  {
    if fs == [] {
      assert [] + [f] == [f];
    } else {
      OfPipeAppend(fs[1..], f, i);
      assert (fs + [f])[1..] == fs[1..] + [f];
    }
  }

  // ---- the agent -----------------------------------------------------------------------------------

  class Agent {
    /** What the pipes are still to give before they end. */
    var pipes: array<string>
    /** Whether they are open on this side. */
    var isOpen: array<bool>
    var out: string
    ghost var frames: seq<Frame>

    constructor (a: string, b: string, c: string)
      ensures Valid() && fresh(pipes) && fresh(isOpen) && out == [] && frames == []
      ensures pipes[..] == [a, b, c] && isOpen[..] == [true, true, true]
    {
      pipes := new string[3][a, b, c];
      isOpen := new bool[3][true, true, true];
      out, frames := [], [];
      new;
      NoText();
    }

    ghost predicate Valid()
      reads this, pipes, isOpen
    {
      && pipes.Length == isOpen.Length == MAXFD
      && out == StreamText(frames) && (forall f :: f in frames ==> IsFrame(f))
      && forall i :: 0 <= i < MAXFD && !isOpen[i] ==> pipes[i] == []
    }

    /** Everything pipe i gave and is to give. */
    ghost function Whole(i: nat): string
      requires i < pipes.Length
      reads this, pipes
    {
      OfPipe(frames, i) + pipes[i]
    }

    /** How much is left to do. */
    ghost function Work(): nat
      requires pipes.Length == isOpen.Length == MAXFD
      reads this, pipes, isOpen
    {
      |pipes[0]| + |pipes[1]| + |pipes[2]|
      + (if isOpen[0] then 1 else 0) + (if isOpen[1] then 1 else 0) + (if isOpen[2] then 1 else 0)
    }

    /** read() of a pipe that select() has found ready: some bytes, or none at its end. */
    method ReadPipe(i: nat) returns (chunk: string)
      requires i < pipes.Length
      modifies pipes
      ensures old(pipes[i]) == chunk + pipes[i] && |chunk| <= CHUNK && (chunk == [] <==> old(pipes[i]) == [])
      ensures forall j :: 0 <= j < pipes.Length && j != i ==> pipes[j] == old(pipes[j])
    {
      if pipes[i] == [] {
        return [];
      }
      var n :| 1 <= n <= CHUNK && n <= |pipes[i]|;
      chunk, pipes[i] := pipes[i][..n], pipes[i][n..];
    }

    /** One pipe that is ready: forward what it gives, or close it. */
    method Forward(i: nat)
      requires Valid() && i < MAXFD && isOpen[i]
      modifies `out, `frames, pipes, isOpen
      ensures Valid() && Work() < old(Work())
      ensures forall j :: 0 <= j < MAXFD ==> Whole(j) == old(Whole(j))
      ensures forall j :: 0 <= j < MAXFD && j != i ==> isOpen[j] == old(isOpen[j])
    {
      hide StreamText, FrameText, OfPipe;
      var buf := ReadPipe(i);
      if buf == [] {
        isOpen[i] := false;
        return;
      }
      ghost var f := Frame(i, buf);
      TextAppend(frames, f);
      forall j | 0 <= j < MAXFD
        ensures OfPipe(frames + [f], j) + pipes[j] == old(Whole(j))
      {
        OfPipeAppend(frames, f, j);
      }
      var text := FrameTextOf(i, buf);
      out := out + text;
      frames := frames + [f];
    }

    /** The three outputs, in whatever order and pieces they come, until all have ended. */
    method Multiplex()
      requires Valid()
      modifies this, pipes, isOpen
      ensures Valid() && pipes == old(pipes) && (forall i :: 0 <= i < MAXFD ==> !isOpen[i])
      ensures forall i :: 0 <= i < MAXFD ==> OfPipe(frames, i) == old(Whole(i))
    {
      hide StreamText, FrameText, OfPipe;
      while isOpen[0] || isOpen[1] || isOpen[2]
        invariant Valid() && pipes == old(pipes) && isOpen == old(isOpen)
        invariant forall i :: 0 <= i < MAXFD ==> Whole(i) == old(Whole(i))
        decreases Work()
      {
        var ready := Select();
        label Before:
        for i := 0 to MAXFD
          invariant Valid() && pipes == old(pipes) && isOpen == old(isOpen)
          invariant forall j :: 0 <= j < MAXFD ==> Whole(j) == old(Whole(j))
          invariant Work() <= old@Before(Work())
          invariant forall j :: i <= j < MAXFD ==> isOpen[j] == old@Before(isOpen[j])
          invariant (exists j :: 0 <= j < i && j in ready) ==> Work() < old@Before(Work())
        {
          if isOpen[i] && i in ready {
            Forward(i);
          }
        }
      }
    }

    /** select(): at least one of the open pipes, any of them. */
    method Select() returns (ready: set<nat>)
      requires Valid() && (isOpen[0] || isOpen[1] || isOpen[2])
      ensures ready != {} && forall i :: i in ready ==> i < MAXFD && isOpen[i]
    {
      var first :| 0 <= first < MAXFD && isOpen[first];
      ready := {first};
      for i := 0 to MAXFD
        invariant first in ready && forall j :: j in ready ==> 0 <= j < MAXFD && isOpen[j]
      {
        if * {
          ready := ready + if isOpen[i] then {i} else {};
        }
      }
    }
  }

  lemma NoText()
    ensures StreamText([]) == []
  {
  }

  method FrameTextOf(i: nat, buf: string) returns (text: string)
    ensures text == FrameText(Frame(i, buf))
  {
    text := Padded(1 + i, 2) + Padded(|buf|, 9);
    text := text + buf;
  }

  // ---- the monitor ---------------------------------------------------------------------------------

  /** What each descriptor got, and whether the stream ended as it should. */
  datatype Demuxed = Demuxed(ok: bool, got: map<int, string>)

  function Delivered(got: map<int, string>, fd: int): string { if fd in got then got[fd] else [] }

  function Deliver(got: map<int, string>, fd: int, data: string): map<int, string> {
    got[fd := Delivered(got, fd) + data]
  }

  /** The monitor on the rest of a stream. */
  function Demultiplexed(s: string, got: map<int, string>): Demuxed
    decreases |s|
  {
    if s == [] then Demuxed(true, got)
    else if |s| < 11 then Demuxed(false, got)
    else
      var fd, size := Atoi(s[..2]), Atoi(s[2..11]);
      if size > CHUNK || size < 0 || |s| < 11 + size then Demuxed(false, got)
      else Demultiplexed(s[11 + size..], Deliver(got, fd, s[11..11 + size]))
  }

  /** The loop over the stream; what goes to the log descriptor is left as the bytes that came for it. */
  method Demultiplex(fd: Stream) returns (ok: bool, got: map<int, string>)
    modifies fd
    ensures Demuxed(ok, got) == Demultiplexed(old(fd.data), map[])
    ensures ok ==> fd.data == []
  {
    hide Atoi;
    got := map[];
    while true
      invariant Demultiplexed(fd.data, got) == Demultiplexed(old(fd.data), map[])
      decreases |fd.data|
    {
      ghost var s := fd.data;
      var head := fd.ReadLen(2);
      if |head| == 0 {
        return true, got;
      }
      if |head| != 2 {
        return false, got;
      }
      var dataFd := Atoi(head);
      var length := fd.ReadLen(9);
      if |length| != 9 {
        return false, got;
      }
      assert s[2..][..9] == s[2..11] && s[2..][9..] == s[11..];
      var dataSize := Atoi(length);
      if dataSize > CHUNK || dataSize < 0 {
        return false, got;
      }
      var buf := fd.ReadLen(dataSize);
      if |buf| != dataSize {
        return false, got;
      }
      assert s[11..][..dataSize] == s[11..11 + dataSize] && s[11..][dataSize..] == s[11 + dataSize..];
      got := Deliver(got, dataFd, buf);
    }
  }

  // ---- what went in comes out ----------------------------------------------------------------------

  function DeliverAll(got: map<int, string>, fs: seq<Frame>): map<int, string>
    decreases |fs|
  {
    if fs == [] then got else DeliverAll(Deliver(got, 1 + fs[0].pipe, fs[0].chunk), fs[1..])
  }

  lemma FrameHead(f: Frame, rest: string)
    requires IsFrame(f)
    ensures var s := FrameText(f) + rest;
            && |s| == 11 + |f.chunk| + |rest| && Atoi(s[..2]) == 1 + f.pipe && Atoi(s[2..11]) == |f.chunk|
            && s[11..11 + |f.chunk|] == f.chunk && s[11 + |f.chunk|..] == rest
  {
    hide Atoi, Padded;
    Powers();
    assert Power10(2) == 100;
    ReadField(1 + f.pipe, 2);
    ReadField(|f.chunk|, 9);
    var a, b := Padded(1 + f.pipe, 2), Padded(|f.chunk|, 9);
    var s := FrameText(f) + rest;
    assert s == a + (b + (f.chunk + rest));
    assert s[..2] == a && s[2..11] == b && s[11..] == f.chunk + rest;
    assert s[11..11 + |f.chunk|] == s[11..][..|f.chunk|] && s[11 + |f.chunk|..] == s[11..][|f.chunk|..];
  }

  /** Whole frames are taken one by one, and what is behind them is next. */
  lemma {:induction false} TakeFrames(fs: seq<Frame>, rest: string, got: map<int, string>)
    requires forall f :: f in fs ==> IsFrame(f)
    ensures Demultiplexed(StreamText(fs) + rest, got) == Demultiplexed(rest, DeliverAll(got, fs))
  {
    hide FrameText, Atoi, Deliver;
    if fs == [] {
      assert StreamText(fs) + rest == rest;
    } else {
      var behind := StreamText(fs[1..]) + rest;
      assert StreamText(fs) + rest == FrameText(fs[0]) + behind;
      FrameHead(fs[0], behind);
      TakeFrames(fs[1..], rest, Deliver(got, 1 + fs[0].pipe, fs[0].chunk));
    }
  }

  lemma {:induction false} DeliveredAll(got: map<int, string>, fs: seq<Frame>, i: nat)
    ensures Delivered(DeliverAll(got, fs), 1 + i) == Delivered(got, 1 + i) + OfPipe(fs, i)
    decreases |fs|
  {
    if fs != [] {
      DeliveredAll(Deliver(got, 1 + fs[0].pipe, fs[0].chunk), fs[1..], i);
    }
  }

  lemma {:induction false} OnlyPipes(got: map<int, string>, fs: seq<Frame>)
    requires forall f :: f in fs ==> IsFrame(f)
    requires forall fd :: fd in got ==> 1 <= fd <= MAXFD
    ensures forall fd :: fd in DeliverAll(got, fs) ==> 1 <= fd <= MAXFD
    decreases |fs|
  {
    if fs != [] {
      assert IsFrame(fs[0]);
      OnlyPipes(Deliver(got, 1 + fs[0].pipe, fs[0].chunk), fs[1..]);
    }
  }

  /** For any order of pieces: no corruption, each descriptor gets what its pipe gave, and no other gets anything. */
  lemma MuxRoundTrip(fs: seq<Frame>)
    requires forall f :: f in fs ==> IsFrame(f)
    ensures var d := Demultiplexed(StreamText(fs), map[]);
            && d.ok && (forall i: nat :: i < MAXFD ==> Delivered(d.got, 1 + i) == OfPipe(fs, i))
            && forall fd :: fd in d.got ==> 1 <= fd <= MAXFD
  {
    hide *;
    assert StreamText(fs) + [] == StreamText(fs);
    TakeFrames(fs, [], map[]);
    AtEnd(DeliverAll(map[], fs));
    OnlyPipes(map[], fs);
    forall i: nat | i < MAXFD
      ensures Delivered(DeliverAll(map[], fs), 1 + i) == OfPipe(fs, i)
    {
      DeliveredAll(map[], fs, i);
      NotYet(1 + i);
      assert [] + OfPipe(fs, i) == OfPipe(fs, i);
    }
  }

  lemma AtEnd(got: map<int, string>)
    ensures Demultiplexed([], got) == Demuxed(true, got)
  {
  }

  lemma NotYet(fd: int)
    ensures Delivered(map[], fd) == []
  {
  }

  /** If the stream breaks off within a frame, the break is noticed, and what came in whole frames has been delivered. */
  lemma BrokenOff(fs: seq<Frame>, f: Frame, k: nat)
    requires (forall g :: g in fs ==> IsFrame(g)) && IsFrame(f) && 0 < k < |FrameText(f)|
    ensures Demultiplexed(StreamText(fs) + FrameText(f)[..k], map[]) == Demuxed(false, DeliverAll(map[], fs))
  {
    hide FrameText, Atoi;
    var cut := FrameText(f)[..k];
    TakeFrames(fs, cut, map[]);
    FrameHead(f, []);
    assert FrameText(f) + [] == FrameText(f);
    if k >= 11 { assert cut[2..11] == FrameText(f)[2..11]; }
  }

  /** The agent and the monitor together. */
  method Relay(a: string, b: string, c: string) returns (ok: bool, got: map<int, string>)
    ensures ok && Delivered(got, 1) == a && Delivered(got, 2) == b && Delivered(got, 3) == c
  {
    hide StreamText, Demultiplexed, Delivered, OfPipe;
    var agent := new Agent(a, b, c);
    NothingYet();
    assert agent.pipes[0] == agent.pipes[..][0] && agent.pipes[1] == agent.pipes[..][1] && agent.pipes[2] == agent.pipes[..][2];
    assert agent.Whole(0) == a && agent.Whole(1) == b && agent.Whole(2) == c;
    agent.Multiplex();
    var fd := new Stream(agent.out);
    ok, got := Demultiplex(fd);
    MuxRoundTrip(agent.frames);
    assert Delivered(got, 1 + 0) == a && Delivered(got, 1 + 1) == b && Delivered(got, 1 + 2) == c;
  }

  lemma NothingYet()
    ensures forall i :: OfPipe([], i) == []
  {
  }

  // ---- which streams are accepted ------------------------------------------------------------------

  /** A frame as it comes: two characters for the descriptor, nine for a length of at most 4096, and as many bytes. */
  datatype RawFrame = RawFrame(head: string, length: string, chunk: string)

  predicate IsRaw(f: RawFrame) { |f.head| == 2 && |f.length| == 9 && Atoi(f.length) == |f.chunk| <= 4096 }

  function RawText(fs: seq<RawFrame>): string {
    if fs == [] then [] else fs[0].head + fs[0].length + fs[0].chunk + RawText(fs[1..])
  }

  predicate AreRaw(fs: seq<RawFrame>) { forall i :: 0 <= i < |fs| ==> IsRaw(fs[i]) }

  lemma RawParts(f: RawFrame, rest: string)
    requires |f.head| == 2 && |f.length| == 9
    ensures var s := f.head + f.length + f.chunk + rest;
            s[..2] == f.head && s[2..11] == f.length && s[11..11 + |f.chunk|] == f.chunk && s[11 + |f.chunk|..] == rest
  {
  }

  lemma {:induction false} RawAccepted(fs: seq<RawFrame>, got: map<int, string>)
    requires AreRaw(fs)
    ensures Demultiplexed(RawText(fs), got).ok
    decreases |fs|
  {
    hide Atoi, Deliver;
    if fs != [] {
      var f, rest := fs[0], RawText(fs[1..]);
      RawParts(f, rest);
      RawAccepted(fs[1..], Deliver(got, Atoi(f.head), f.chunk));
    }
  }

  lemma {:induction false} AcceptedIsRaw(s: string, got: map<int, string>) returns (fs: seq<RawFrame>)
    requires Demultiplexed(s, got).ok
    ensures AreRaw(fs) && s == RawText(fs)
    decreases |s|
  {
    hide Atoi, Deliver;
    if s == [] {
      fs := [];
    } else {
      var size := Atoi(s[2..11]);
      var f := RawFrame(s[..2], s[2..11], s[11..11 + size]);
      var rest := AcceptedIsRaw(s[11 + size..], Deliver(got, Atoi(s[..2]), s[11..11 + size]));
      fs := [f] + rest;
      assert s == f.head + f.length + f.chunk + s[11 + size..];
    }
  }

  /** The monitor takes a stream for intact exactly if it consists of whole frames. */
  lemma AcceptedExactly(s: string)
    ensures Demultiplexed(s, map[]).ok <==> exists fs :: AreRaw(fs) && s == RawText(fs)
  {
    if fs :| AreRaw(fs) && s == RawText(fs) { RawAccepted(fs, map[]); }
    if Demultiplexed(s, map[]).ok { var fs := AcceptedIsRaw(s, map[]); }
  }
}
