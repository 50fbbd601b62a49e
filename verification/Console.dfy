/**
 The shared serial console: the capped backlog of lib/serialConsole.ts, which has to agree with all the
 output since the session began, and the sessions of console.ts, whose viewers drop off and come back.
 A viewer counts as packages/frontend/src/components/console/TerminalPane.tsx does.
 */
module Console {
  import opened Wrappers

  type Byte = n: int | 0 <= n < 256
  type Bytes = seq<Byte>

  const NEWLINE: Byte := 0x0a

  // ----- What the backlog promises, of the whole stream

  function Min(a: nat, b: nat): nat {
    if a <= b then a else b
  }

  /** The offset of the oldest byte held. */
  function Start(stream: Bytes, cap: nat): (start: nat)
    ensures start <= |stream|
  {
    |stream| - Min(cap, |stream|)
  }

  function Since(stream: Bytes, cap: nat, offset: int): Option<Bytes> {
    if Start(stream, cap) <= offset <= |stream| then Some(stream[offset..]) else None
  }

  function IndexOf(data: Bytes, b: Byte): (i: int)
    ensures -1 <= i < |data|
    ensures i < 0 ==> b !in data
    ensures i >= 0 ==> data[i] == b && b !in data[..i]
  {
    if data == [] then -1
    else if data[0] == b then 0
    else
      var i := IndexOf(data[1..], b);
      assert i >= 0 ==> data[..i + 1] == [data[0]] + data[1..][..i];
      assert data == [data[0]] + data[1..];
      if i < 0 then -1 else i + 1
  }

  /** Where a viewer with nothing to resume from is started. */
  function ReplayFrom(stream: Bytes, cap: nat): (from: nat)
    ensures Start(stream, cap) <= from <= |stream|
  {
    var start := Start(stream, cap);
    if start == 0 then 0 else start + IndexOf(stream[start..][..Min(4096, |stream| - start)], NEWLINE) + 1
  }

  function Concat(chunks: seq<Bytes>): Bytes {
    if chunks == [] then [] else chunks[0] + Concat(chunks[1..])
  }

  lemma {:induction false} ConcatPush(chunks: seq<Bytes>, buf: Bytes)
    ensures Concat(chunks + [buf]) == Concat(chunks) + buf
  {
    if chunks == [] {
      assert chunks + [buf] == [buf];
    } else {
      assert (chunks + [buf])[1..] == chunks[1..] + [buf];
      ConcatPush(chunks[1..], buf);
    }
  }

  /** Held chunks that end a stream still do when `over` bytes are cut off the first of them. */
  lemma CutHead(chunks: seq<Bytes>, over: nat, stream: Bytes, from: nat)
    requires chunks != [] && over <= |chunks[0]| && EndsStream(chunks, stream, from)
    ensures EndsStream(chunks[0 := chunks[0][over..]], stream, from + over)
    ensures over == |chunks[0]| ==> EndsStream(chunks[1..], stream, from + over)
  {
    var cut := chunks[0 := chunks[0][over..]];
    assert cut[1..] == chunks[1..];
    assert Concat(cut) == Concat(chunks)[over..];
  }

  /** The chunks are the stream from an offset on. */
  ghost predicate EndsStream(chunks: seq<Bytes>, stream: Bytes, from: nat) {
    from <= |stream| && Concat(chunks) == stream[from..]
  }

  lemma NoChunks(stream: Bytes, from: nat)
    requires EndsStream([], stream, from)
    ensures from == |stream|
  {
  }

  lemma PushChunk(chunks: seq<Bytes>, stream: Bytes, from: nat, buf: Bytes)
    requires EndsStream(chunks, stream, from)
    ensures EndsStream(chunks + [buf], stream + buf, from)
  {
    ConcatPush(chunks, buf);
  }

  // ----- The backlog

  class Backlog {
    const cap: nat
    var chunks: seq<Bytes>
    var bytes: nat
    var total: nat
    /** Everything ever appended. */
    ghost var stream: Bytes

    ghost predicate Valid()
      reads this
    {
      && total == |stream|
      && bytes == Min(cap, total)
      && EndsStream(chunks, stream, Start(stream, cap))
    }

    constructor (cap: nat)
      ensures Valid() && this.cap == cap && stream == []
    {
      this.cap := cap;
      chunks, bytes, total, stream := [], 0, 0, [];
      new;
      assert Concat(chunks) == [] == stream[Start(stream, cap)..];
    }

    method Append(buf: Bytes)
      requires Valid()
      modifies this
      ensures Valid() && stream == old(stream) + buf
    {
      hide EndsStream, Concat;
      if |buf| == 0 {
        assert stream + buf == stream;
        return;
      }
      PushChunk(chunks, stream, total - bytes, buf);
      chunks := chunks + [buf];
      bytes := bytes + |buf|;
      total := total + |buf|;
      stream := stream + buf;
      while bytes > cap && |chunks| > 0
        invariant stream == old(stream) + buf && total == |stream|
        invariant Min(cap, total) <= bytes <= total
        invariant EndsStream(chunks, stream, total - bytes)
        decreases |chunks|, bytes
      {
        var head := chunks[0];
        var over := bytes - cap;
        if |head| <= over {
          CutHead(chunks, |head|, stream, total - bytes);
          chunks := chunks[1..];
          bytes := bytes - |head|;
        } else {
          CutHead(chunks, over, stream, total - bytes);
          chunks := chunks[0 := head[over..]];
          bytes := bytes - over;
        }
      }
      if chunks == [] { NoChunks(stream, total - bytes); }
    }

    /** The argument is None when it is no whole number. */
    method SinceOffset(offset: Option<int>) returns (missed: Option<Bytes>)
      requires Valid()
      ensures missed == if offset == None then None else Since(stream, cap, offset.value)
    {
      var start := total - bytes;
      if offset == None || offset.value < start || offset.value > total { return None; }
      return Some(Concat(chunks)[offset.value - start..]);
    }

    method Replay() returns (from: nat, data: Bytes)
      requires Valid()
      ensures from == ReplayFrom(stream, cap) && data == stream[from..]
    {
      data := Concat(chunks);
      var start := total - bytes;
      if start == 0 { return 0, data; }
      var nl := IndexOf(data[..Min(4096, |data|)], NEWLINE);
      var skip := if nl == -1 then 0 else nl + 1;
      return start + skip, data[skip..];
    }
  }

  /**
   A replay begins at the start of the session; or, with its start lost, just after the first newline among the oldest
   4096 bytes held, or at the oldest if they have none.
   */
  lemma ReplayStartsALine(stream: Bytes, cap: nat)
    ensures var start, from := Start(stream, cap), ReplayFrom(stream, cap);
            || (from == start && (start == 0 || NEWLINE !in stream[start..][..Min(4096, |stream| - start)]))
            || (start < from <= start + 4096 && stream[from - 1] == NEWLINE && NEWLINE !in stream[start..from - 1])
  {
    var start, from := Start(stream, cap), ReplayFrom(stream, cap);
    if from > start {
      assert stream[start..][..Min(4096, |stream| - start)][..from - start - 1] == stream[start..from - 1];
    }
  }

  // ----- Sessions and viewers

  datatype Message = Attach(epoch: nat, offset: nat, resumed: bool) | Data(bytes: Bytes)

  /** What a page knows of the console: what it has shown since a replay last began, and the offsets that covers. */
  datatype Viewer = Viewer(epoch: Option<nat>, from: nat, offset: nat, shown: Bytes)

  /** A page, whether its socket is open, and what has been sent on it and not yet arrived. */
  datatype Link = Link(viewer: Viewer, open: bool, wire: seq<Message>)

  datatype Session = Session(epoch: nat, cap: nat, stream: Bytes, links: map<string, Link>)

  datatype Event =
    | Output(text: Bytes)
    | Connect(id: string)
    | Arrive(id: string)
    | Drop(id: string)

  const NEWCOMER := Viewer(None, 0, 0, [])

  function LinkOf(s: Session, id: string): Link {
    if id in s.links then s.links[id] else Link(NEWCOMER, false, [])
  }

  /** What a page does with one message. */
  function Receive(v: Viewer, m: Message): Viewer {
    match m
    case Attach(epoch, offset, resumed) =>
      if resumed then v.(epoch := Some(epoch), offset := offset) else Viewer(Some(epoch), offset, offset, [])
    case Data(bytes) => v.(offset := v.offset + |bytes|, shown := v.shown + bytes)
  }

  function Greeting(s: Session, v: Viewer): seq<Message> {
    var missed := if v.epoch == Some(s.epoch) then Since(s.stream, s.cap, v.offset) else None;
    var from := if missed.Some? then v.offset else ReplayFrom(s.stream, s.cap);
    var data := s.stream[if from <= |s.stream| then from else |s.stream|..];
    [Attach(s.epoch, from, missed.Some?)] + if |data| > 0 then [Data(data)] else []
  }

  function Step(s: Session, e: Event): Session {
    match e
    case Output(text) =>
      if text == [] then s
      else s.(stream := s.stream + text,
              links := map id | id in s.links ::
                         if s.links[id].open then s.links[id].(wire := s.links[id].wire + [Data(text)])
                         else s.links[id])
    case Connect(id) =>
      var l := LinkOf(s, id);
      if l.open then s else s.(links := s.links[id := Link(l.viewer, true, Greeting(s, l.viewer))])
    case Arrive(id) =>
      var l := LinkOf(s, id);
      if l.wire == [] then s
      else s.(links := s.links[id := l.(viewer := Receive(l.viewer, l.wire[0]), wire := l.wire[1..])])
    case Drop(id) =>
      var l := LinkOf(s, id);
      s.(links := s.links[id := l.(open := false, wire := [])])
  }

  /** A session begins with no output; a page from an earlier one may be there, not connected, with that one's epoch. */
  ghost predicate Begins(s: Session) {
    s.stream == [] && forall id :: id in s.links ==>
      var l := s.links[id];
      !l.open && l.wire == [] && l.viewer.epoch != Some(s.epoch)
  }

  function After(start: Session, run: seq<Event>): Session {
    if run == [] then start else Step(After(start, run[..|run| - 1]), run[|run| - 1])
  }

  /** What a viewer has is one stretch of the stream, whole and once. */
  ghost predicate Exact(s: Session, v: Viewer) {
    v.epoch == Some(s.epoch) ==>
      v.offset == v.from + |v.shown| && v.offset <= |s.stream| && v.shown == s.stream[v.from..v.offset]
  }

  /** What is on the wire keeps a viewer exact at every message, and brings it up to date. */
  ghost predicate WireExact(s: Session, v: Viewer, wire: seq<Message>)
    decreases |wire|
  {
    && Exact(s, v)
    && if wire == [] then v.epoch == Some(s.epoch) && v.offset == |s.stream|
       else
         && (wire[0].Data? ==> v.epoch == Some(s.epoch))
         && WireExact(s, Receive(v, wire[0]), wire[1..])
  }

  ghost predicate LinkExact(s: Session, l: Link) {
    if l.open then WireExact(s, l.viewer, l.wire) else Exact(s, l.viewer) && l.wire == []
  }

  ghost predicate SessionExact(s: Session) {
    forall id :: id in s.links ==> LinkExact(s, s.links[id])
  }

  lemma ExactGrows(s: Session, v: Viewer, text: Bytes)
    requires Exact(s, v)
    ensures Exact(s.(stream := s.stream + text), v)
  {
    if v.epoch == Some(s.epoch) {
      assert (s.stream + text)[v.from..v.offset] == s.stream[v.from..v.offset];
    }
  }

  lemma {:induction false} WireGrows(s: Session, v: Viewer, wire: seq<Message>, text: Bytes)
    requires WireExact(s, v, wire)
    ensures WireExact(s.(stream := s.stream + text), v, wire + [Data(text)])
    decreases |wire|
  {
    var s' := s.(stream := s.stream + text);
    var wire' := wire + [Data(text)];
    ExactGrows(s, v, text);
    if wire == [] {
      var v' := Receive(v, Data(text));
      assert wire'[1..] == [];
      assert Exact(s', v');
      assert WireExact(s', v', wire'[1..]);
    } else {
      assert wire'[1..] == wire[1..] + [Data(text)];
      WireGrows(s, Receive(v, wire[0]), wire[1..], text);
    }
  }

  lemma GreetingExact(s: Session, v: Viewer)
    requires Exact(s, v)
    ensures WireExact(s, v, Greeting(s, v))
  {
    var wire := Greeting(s, v);
    var v1 := Receive(v, wire[0]);
    assert Exact(s, v1);
    if |wire| == 2 {
      var v2 := Receive(v1, wire[1]);
      assert wire[1..] == [wire[1]] && wire[1..][1..] == [];
      assert Exact(s, v2);
      assert WireExact(s, v2, []);
      assert WireExact(s, v1, wire[1..]);
    } else {
      assert wire[1..] == [];
      assert WireExact(s, v1, []);
    }
  }

  lemma StepExact(s: Session, e: Event)
    requires SessionExact(s)
    ensures SessionExact(Step(s, e))
  {
    var s' := Step(s, e);
    forall id | id in s'.links ensures LinkExact(s', s'.links[id]) {
      match e
      case Output(text) =>
        if s.links[id].open { WireGrows(s, s.links[id].viewer, s.links[id].wire, text); }
        else { ExactGrows(s, s.links[id].viewer, text); }
        if text != [] { SameStream(s.(stream := s.stream + text), s', s'.links[id]); }
      case Connect(id') =>
        var l := LinkOf(s, id);
        if id == id' && !l.open { GreetingExact(s, l.viewer); }
        SameStream(s, s', s'.links[id]);
      case Arrive(id') =>
        SameStream(s, s', s'.links[id]);
      case Drop(id') =>
        SameStream(s, s', s'.links[id]);
    }
  }

  /** Exactness only looks at a session's name and stream. */
  lemma SameStream(s: Session, t: Session, l: Link)
    requires s.epoch == t.epoch && s.stream == t.stream
    ensures LinkExact(s, l) == LinkExact(t, l)
  {
    SameWire(s, t, l.viewer, l.wire);
  }

  lemma {:induction false} SameWire(s: Session, t: Session, v: Viewer, wire: seq<Message>)
    requires s.epoch == t.epoch && s.stream == t.stream
    ensures WireExact(s, v, wire) == WireExact(t, v, wire)
    decreases |wire|
  {
    if wire != [] { SameWire(s, t, Receive(v, wire[0]), wire[1..]); }
  }

  lemma {:induction false} RunExact(start: Session, run: seq<Event>)
    requires Begins(start)
    ensures SessionExact(After(start, run))
  {
    if run != [] {
      RunExact(start, run[..|run| - 1]);
      StepExact(After(start, run[..|run| - 1]), run[|run| - 1]);
    }
  }

  /**
   At every moment of every session, whatever drops and reconnects there have been, a viewer has shown
   exactly the stretch of the stream between its two offsets, and one with nothing left on its wire is
   up to date. So it is for a page that comes with an earlier session's epoch.
   */
  lemma EveryViewerIsExact(start: Session, run: seq<Event>, id: string)
    requires Begins(start)
    ensures var s := After(start, run);
            var l := LinkOf(s, id);
            && (l.viewer.epoch == Some(start.epoch) ==>
                  && l.viewer.offset == l.viewer.from + |l.viewer.shown| <= |s.stream|
                  && l.viewer.shown == s.stream[l.viewer.from..l.viewer.offset])
            && (l.open && l.wire == [] ==>
                  l.viewer.epoch == Some(start.epoch) && l.viewer.shown == s.stream[l.viewer.from..])
  {
    RunExact(start, run);
    SameEpoch(start, run);
  }

  lemma {:induction false} SameEpoch(start: Session, run: seq<Event>)
    ensures After(start, run).epoch == start.epoch && After(start, run).cap == start.cap
  {
    if run != [] { SameEpoch(start, run[..|run| - 1]); }
  }

  function ReceiveAll(v: Viewer, wire: seq<Message>): Viewer
    decreases |wire|
  {
    if wire == [] then v else ReceiveAll(Receive(v, wire[0]), wire[1..])
  }

  /**
   A viewer of this session goes on from its own first byte exactly when the backlog still reaches
   back to where it had got to; otherwise it begins again at a replay.
   */
  lemma ReconnectResumesIfItCan(s: Session, v: Viewer)
    requires Exact(s, v)
    ensures var after := ReceiveAll(v, Greeting(s, v));
            && after.epoch == Some(s.epoch) && after.from <= after.offset == |s.stream|
            && after.shown == s.stream[after.from..]
            && after.from == if v.epoch == Some(s.epoch) && Start(s.stream, s.cap) <= v.offset then v.from
                             else ReplayFrom(s.stream, s.cap)
  {
    GreetingExact(s, v);
    var wire := Greeting(s, v);
    if |wire| == 2 {
      assert wire[1..] == [wire[1]] && wire[1..][1..] == [];
      var v1 := Receive(v, wire[0]);
      assert ReceiveAll(v, wire) == ReceiveAll(v1, [wire[1]]) == ReceiveAll(Receive(v1, wire[1]), []);
    } else {
      assert wire[1..] == [];
      assert ReceiveAll(v, wire) == ReceiveAll(Receive(v, wire[0]), []);
    }
  }

  function ArriveAll(s: Session, id: string, n: nat): Session {
    if n == 0 then s else Step(ArriveAll(s, id, n - 1), Arrive(id))
  }

  lemma {:induction false} ReceiveOneMore(v: Viewer, wire: seq<Message>, n: nat)
    requires n < |wire|
    ensures ReceiveAll(v, wire[..n + 1]) == Receive(ReceiveAll(v, wire[..n]), wire[n])
    decreases n
  {
    if n == 0 {
      assert wire[..1][1..] == [];
    } else {
      assert wire[..n + 1][1..] == wire[1..][..n] && wire[..n][1..] == wire[1..][..n - 1];
      ReceiveOneMore(Receive(v, wire[0]), wire[1..], n - 1);
    }
  }

  /** What has been sent arrives in order, one message at a time, and nobody else's page is touched. */
  lemma {:induction false} ArrivesInOrder(s: Session, id: string, n: nat)
    requires id in s.links && n <= |s.links[id].wire|
    ensures ArriveAll(s, id, n)
         == s.(links := s.links[id := s.links[id].(viewer := ReceiveAll(s.links[id].viewer, s.links[id].wire[..n]),
                                                   wire := s.links[id].wire[n..])])
  {
    var l := s.links[id];
    if n == 0 {
      assert s.links[id := l.(viewer := ReceiveAll(l.viewer, l.wire[..0]), wire := l.wire[0..])] == s.links;
    } else {
      ArrivesInOrder(s, id, n - 1);
      ReceiveOneMore(l.viewer, l.wire, n - 1);
      assert l.wire[n - 1..][0] == l.wire[n - 1] && l.wire[n - 1..][1..] == l.wire[n..];
    }
  }

  /**
   At any moment of any session a page that isn't connected can connect, and when what it is sent has arrived it has
   shown the session's output to the end: from its own first byte if the backlog still reaches back to where it had
   got to, and else from where a replay begins.
   */
  lemma ConnectingCatchesUp(start: Session, run: seq<Event>, id: string)
    requires Begins(start) && !LinkOf(After(start, run), id).open
    ensures var s := After(start, run);
            var v, connected := LinkOf(s, id).viewer, Step(s, Connect(id));
            var end := LinkOf(ArriveAll(connected, id, |LinkOf(connected, id).wire|), id);
            && end.open && end.wire == [] && end.viewer.epoch == Some(start.epoch)
            && end.viewer.from <= |s.stream| && end.viewer.shown == s.stream[end.viewer.from..]
            && end.viewer.from == if v.epoch == Some(start.epoch) && |s.stream| - start.cap <= v.offset then v.from
                                  else ReplayFrom(s.stream, start.cap)
  {
    hide Greeting, ReceiveAll, SessionExact, ArriveAll, WireExact, ReplayFrom;
    var s := After(start, run);
    RunExact(start, run);
    SameEpoch(start, run);
    var v := LinkOf(s, id).viewer;
    assert Exact(s, v) by { PageIsExact(s, id); }
    ReconnectResumesIfItCan(s, v);
    var connected := Step(s, Connect(id));
    var wire := Greeting(s, v);
    assert connected.links[id] == Link(v, true, wire);
    ArrivesInOrder(connected, id, |wire|);
    assert wire[..|wire|] == wire && wire[|wire|..] == [];
  }

  lemma PageIsExact(s: Session, id: string)
    requires SessionExact(s)
    ensures Exact(s, LinkOf(s, id).viewer)
  {
  }
}
