/** Framing of segments on the overlay connection: "!&", the bytes of the segment, "!#". */
module SegFrame {

  type Bytes = seq<char>

  /** What sendseg puts on the connection. */
  function Frame(seg: Bytes): Bytes {
    ['!', '&'] + seg + ['!', '#']
  }

  function Stream(segs: seq<Bytes>): Bytes {
    if segs == [] then [] else Frame(segs[0]) + Stream(segs[1..])
  }

  // ---------------------------------------------------------------- the decoder

  /** What recvseg stores of the next frame, its end mark included, and the input behind it. */
  datatype Found = Nothing | Found(stored: Bytes, rest: Bytes)

  /** The state behind the byte c, which does not end a frame. */
  function Feed(state: int, c: char): (next: int)
    ensures 0 <= state <= 3 ==> 0 <= next <= 3
  {
    if state == 0 then (if c == '!' then 1 else 0)
    else if state == 1 then (if c == '&' then 2 else 0)
    else if c == '!' then 3
    else 2
  }

  /** The loop of recvseg up to the end of a frame. */
  function NextFrame(input: Bytes, state: int, stored: Bytes): (f: Found)
    decreases |input|
  {
    if input == [] then Nothing
    else if state == 3 && input[0] == '#' then Found(stored + ['#'], input[1..])
    else NextFrame(input[1..], Feed(state, input[0]), if state >= 2 then stored + [input[0]] else stored)
  }

  lemma {:induction false} RestIsShorter(input: Bytes, state: int, stored: Bytes)
    ensures NextFrame(input, state, stored).Found? ==> |NextFrame(input, state, stored).rest| < |input|
    decreases |input|
  {
    if input == [] {
    } else if state == 3 && input[0] == '#' {
    } else {
      RestIsShorter(input[1..], Feed(state, input[0]), if state >= 2 then stored + [input[0]] else stored);
    }
  }

  /** One call of recvseg: frames that seglost() takes are skipped.  loss tells the outcome of its n-th
      call. */
  datatype Received = EndOfInput(calls: nat) | Got(stored: Bytes, rest: Bytes, calls: nat)

  function Receive(input: Bytes, state: int, stored: Bytes, loss: nat -> bool, calls: nat): (r: Received)
    ensures r.Got? ==> |r.rest| < |input|
    decreases |input|
  {
    RestIsShorter(input, state, stored);
    match NextFrame(input, state, stored)
    case Nothing => EndOfInput(calls)
    case Found(s, rest) => if loss(calls) then Receive(rest, 0, [], loss, calls + 1) else Got(s, rest, calls + 1)
  }

  /** What a handler's loop over recvseg finds in its buffer, call by call. */
  function ReceiveEach(input: Bytes, loss: nat -> bool, calls: nat): seq<Bytes>
    decreases |input|
  {
    match Receive(input, 0, [], loss, calls)
    case EndOfInput(_) => []
    case Got(stored, rest, n) => [stored] + ReceiveEach(rest, loss, n)
  }

  /** One turn of the loop. */
  lemma ReceiveByte(input: Bytes, state: int, stored: Bytes, loss: nat -> bool, calls: nat)
    ensures Receive(input, state, stored, loss, calls) ==
            if input == [] then EndOfInput(calls)
            else if state == 3 && input[0] == '#' then
              if loss(calls) then Receive(input[1..], 0, [], loss, calls + 1)
              else Got(stored + ['#'], input[1..], calls + 1)
            else
              Receive(input[1..], Feed(state, input[0]), if state >= 2 then stored + [input[0]] else stored,
                      loss, calls)
  {
  }

  // ---------------------------------------------------------------- full-size segments

  /** What can be left of the frame of a full-size segment once its first byte is read: it is at most
      size + 3 bytes long and ends in "!#". */
  ghost predicate Tail(size: nat, tail: Bytes) {
    && |tail| <= size + 3
    && (|tail| >= 1 ==> tail[|tail| - 1] == '#')
    && (|tail| >= 2 ==> tail[|tail| - 2] == '!')
  }

  ghost predicate FullSize(size: nat, segs: seq<Bytes>) {
    forall k :: 0 <= k < |segs| ==> |segs[k]| == size
  }

  lemma FrameAppended(input: Bytes, seg: Bytes)
    ensures input + ['!', '&'] + seg + ['!', '#'] == input + Frame(seg)
  {
  }

  /** The decoder inside a frame of which tail is left: what is stored and what is left fit into the
      buffer together, and the end mark will be seen. */
  ghost predicate Inside(size: nat, state: int, idx: nat, tail: Bytes) {
    && 0 <= state <= 3 && Tail(size, tail)
    && (state < 2 ==> idx == 0)
    && (state > 0 ==> tail != [])
    && (state >= 2 ==> idx + |tail| <= size + 2)
    && (|tail| == 1 ==> state != 2)
  }

  /** One more byte of the frame, from any state. */
  lemma StepInside(size: nat, state: int, idx: nat, tail: Bytes)
    requires Inside(size, state, idx, tail) && tail != []
    ensures state >= 2 ==> idx < size + 2
    ensures if state == 3 && tail[0] == '#' then Tail(size, tail[1..])
            else Inside(size, Feed(state, tail[0]), if state >= 2 then idx + 1 else idx, tail[1..])
  {
  }

  /** A frame without its first byte. */
  function Opened(seg: Bytes): Bytes {
    ['&'] + seg + ['!', '#']
  }

  /** Between two frames the decoder is always back in state 0, so it sees the next one begin. */
  lemma NextBegins(size: nat, segs: seq<Bytes>)
    requires FullSize(size, segs) && segs != []
    ensures Inside(size, 1, 0, Opened(segs[0]))
    ensures Stream(segs) == ['!'] + (Opened(segs[0]) + Stream(segs[1..]))
  {
    var o, t := Opened(segs[0]), Stream(segs[1..]);
    assert Stream(segs) == Frame(segs[0]) + t && Frame(segs[0]) == ['!'] + o;
    assert |o| == size + 3 && o[size + 2] == '#' && o[size + 1] == '!';
    hide *;
    Associative(['!'], o, t);
  }

  lemma Associative(a: Bytes, b: Bytes, c: Bytes)
    ensures a + b + c == a + (b + c)
  {
  }

  /** input is the rest of one frame and then whole frames of full-size segments. */
  ghost predicate Resumes(size: nat, input: Bytes, segs: seq<Bytes>) {
    exists tail :: Tail(size, tail) && input == tail + Stream(segs)
  }

  /** Whatever bytes the segments hold, and wherever in a frame it starts, the decoder stores at most
      size + 2 bytes and stops in or behind a frame, with whole frames to follow. */
  lemma {:induction false} NeverOverflows(size: nat, tail: Bytes, segs: seq<Bytes>, state: int, stored: Bytes)
    returns (left: nat)
    requires Inside(size, state, |stored|, tail) && FullSize(size, segs)
    ensures left <= |segs|
    ensures match NextFrame(tail + Stream(segs), state, stored)
            case Nothing => true
            case Found(s, rest) => |s| <= size + 2 && Resumes(size, rest, segs[left..])
    decreases |tail + Stream(segs)|
  {
    var input := tail + Stream(segs);
    if tail == [] {
      if segs == [] {
        return 0;
      }
      NextBegins(size, segs);
      assert input == Stream(segs);
      left := NeverOverflows(size, Opened(segs[0]), segs[1..], 1, stored);
      assert segs[1..][left..] == segs[left + 1..];
      left := left + 1;
    } else {
      StepInside(size, state, |stored|, tail);
      assert input[0] == tail[0] && input[1..] == tail[1..] + Stream(segs);
      if state == 3 && tail[0] == '#' {
        left := 0;
        assert segs[0..] == segs;
      } else {
        left := NeverOverflows(size, tail[1..], segs, Feed(state, tail[0]),
                               if state >= 2 then stored + [tail[0]] else stored);
      }
    }
  }

  // ---------------------------------------------------------------- clean segments

  /** "!#" stands in s at k. */
  predicate EndsAt(s: Bytes, k: int) {
    0 <= k && k + 1 < |s| && s[k] == '!' && s[k + 1] == '#'
  }

  /** No '!' followed by '#' inside the segment. */
  ghost predicate Clean(seg: Bytes) {
    forall k :: !EndsAt(seg, k)
  }

  ghost predicate AllClean(segs: seq<Bytes>) {
    forall k :: 0 <= k < |segs| ==> Clean(segs[k])
  }

  /** Behind "!&" the decoder stores everything up to the first "!#". */
  lemma {:induction false} StopsAtFirstEnd(s: Bytes, k: nat, e: nat)
    requires k <= e + 1 && EndsAt(s, e) && forall i :: 0 <= i < e ==> !EndsAt(s, i)
    ensures NextFrame(s[k..], if k > 0 && s[k - 1] == '!' then 3 else 2, s[..k]) == Found(s[..e + 2], s[e + 2..])
    decreases e + 1 - k
  {
    assert s[k..][0] == s[k] && s[k..][1..] == s[k + 1..];
    if k == e + 1 {
      assert s[..k] + ['#'] == s[..e + 2];
    } else {
      assert k > 0 ==> !EndsAt(s, k - 1);
      assert s[..k] + [s[k]] == s[..k + 1];
      StopsAtFirstEnd(s, k + 1, e);
    }
  }

  lemma OpeningMark(body: Bytes)
    ensures NextFrame(['!', '&'] + body, 0, []) == NextFrame(body, 2, [])
  {
    var input := ['!', '&'] + body;
    assert input[1..][0] == '&' && input[1..][1..] == body;
  }

  /** A frame is read up to the first "!#" in it, which may be part of the segment. */
  lemma ReadsUpToFirstEnd(seg: Bytes, rest: Bytes, e: nat)
    requires var body := seg + ['!', '#'] + rest; EndsAt(body, e) && forall i :: 0 <= i < e ==> !EndsAt(body, i)
    ensures var body := seg + ['!', '#'] + rest;
            NextFrame(Frame(seg) + rest, 0, []) == Found(body[..e + 2], body[e + 2..])
  {
    var body := seg + ['!', '#'] + rest;
    assert Frame(seg) + rest == ['!', '&'] + body;
    OpeningMark(body);
    StopsAtFirstEnd(body, 0, e);
    assert body[0..] == body && body[..0] == [];
  }

  lemma {:induction false} FirstEnd(s: Bytes, k: nat) returns (e: nat)
    requires EndsAt(s, k)
    ensures e <= k && EndsAt(s, e) && forall i :: 0 <= i < e ==> !EndsAt(s, i)
    decreases k
  {
    e := k;
    if i :| 0 <= i < k && EndsAt(s, i) {
      e := FirstEnd(s, i);
    }
  }

  /** The decoder reads a frame to its end exactly when the segment is clean.  A '!' at the end of the
      segment does no harm: it is followed by the '!' of the end mark. */
  lemma ReadsWholeFrameIffClean(seg: Bytes, rest: Bytes)
    ensures NextFrame(Frame(seg) + rest, 0, []) == Found(seg + ['!', '#'], rest) <==> Clean(seg)
    ensures NextFrame(Frame(seg) + rest, 0, []).Found?
    ensures NextFrame(Frame(seg) + rest, 0, []).stored == seg + ['!', '#'] <==> Clean(seg)
  {
    var body := seg + ['!', '#'] + rest;
    assert EndsAt(body, |seg|);
    var e := FirstEnd(body, |seg|);
    ReadsUpToFirstEnd(seg, rest, e);
    if Clean(seg) {
      assert e < |seg| ==> EndsAt(seg, e);
      assert body[..|seg| + 2] == seg + ['!', '#'] && body[|seg| + 2..] == rest;
    } else {
      var k :| EndsAt(seg, k);
      assert EndsAt(body, k);
      assert |body[..e + 2]| < |seg| + 2;
    }
  }

  /** The segments that seglost() spares. */
  function Kept(segs: seq<Bytes>, loss: nat -> bool, n: nat): seq<Bytes> {
    if segs == [] then []
    else (if loss(n) then [] else [segs[0]]) + Kept(segs[1..], loss, n + 1)
  }

  /** The segments with their end marks, as they are stored. */
  function Marked(segs: seq<Bytes>): seq<Bytes> {
    if segs == [] then [] else [segs[0] + ['!', '#']] + Marked(segs[1..])
  }

  lemma ReceiveStep(input: Bytes, stored: Bytes, rest: Bytes, loss: nat -> bool, n: nat)
    requires NextFrame(input, 0, []) == Found(stored, rest)
    ensures ReceiveEach(input, loss, n) == (if loss(n) then [] else [stored]) + ReceiveEach(rest, loss, n + 1)
  {
  }

  /** Clean segments come out as they were sent and in order, but for those lost. */
  lemma {:induction false} CleanRoundTrip(segs: seq<Bytes>, loss: nat -> bool, n: nat)
    requires AllClean(segs)
    ensures ReceiveEach(Stream(segs), loss, n) == Marked(Kept(segs, loss, n))
    decreases |segs|
  {
    if segs == [] {
    } else {
      ReadsWholeFrameIffClean(segs[0], Stream(segs[1..]));
      ReceiveStep(Stream(segs), segs[0] + ['!', '#'], Stream(segs[1..]), loss, n);
      CleanRoundTrip(segs[1..], loss, n + 1);
      var kept := Kept(segs[1..], loss, n + 1);
      if loss(n) {
        assert Kept(segs, loss, n) == kept;
      } else {
        assert Kept(segs, loss, n) == [segs[0]] + kept;
        assert ([segs[0]] + kept)[1..] == kept;
      }
    }
  }

  lemma AllCleanSplit(segs: seq<Bytes>)
    requires segs != []
    ensures AllClean(segs) <==> Clean(segs[0]) && AllClean(segs[1..])
  {
    assert forall k :: 1 <= k < |segs| ==> segs[k] == segs[1..][k - 1];
  }

  lemma SameHead(a: Bytes, s: seq<Bytes>, b: Bytes, t: seq<Bytes>)
    ensures [a] + s == [b] + t <==> a == b && s == t
  {
    assert ([a] + s)[0] == a && ([a] + s)[1..] == s && ([b] + t)[1..] == t && ([b] + t)[0] == b;
  }

  /** When nothing is lost, everything comes out as it was sent if and only if every segment is clean. */
  lemma {:induction false} RoundTripIffClean(segs: seq<Bytes>, n: nat)
    ensures ReceiveEach(Stream(segs), (k: nat) => false, n) == Marked(segs) <==> AllClean(segs)
    decreases |segs|
  {
    if segs == [] {
    } else {
      ReadsWholeFrameIffClean(segs[0], Stream(segs[1..]));
      var f := NextFrame(Stream(segs), 0, []);
      ReceiveStep(Stream(segs), f.stored, f.rest, (k: nat) => false, n);
      RoundTripIffClean(segs[1..], n + 1);
      AllCleanSplit(segs);
      var tail := ReceiveEach(f.rest, (k: nat) => false, n + 1);
      SameHead(f.stored, tail, segs[0] + ['!', '#'], Marked(segs[1..]));
    }
  }

  lemma {:induction false} KeptWhenNothingIsLost(segs: seq<Bytes>, n: nat)
    ensures Kept(segs, (k: nat) => false, n) == segs
    decreases |segs|
  {
    if segs == [] {
    } else {
      KeptWhenNothingIsLost(segs[1..], n + 1);
    }
  }

  /** Whatever is lost, the rest comes out as it was sent, if and only if every segment is clean. */
  lemma AnyLossRoundTripIffClean(segs: seq<Bytes>, n: nat)
    ensures (forall loss: nat -> bool :: ReceiveEach(Stream(segs), loss, n) == Marked(Kept(segs, loss, n))) <==>
            AllClean(segs)
  {
    hide ReceiveEach, Stream, Marked, Kept, AllClean;
    if AllClean(segs) {
      forall loss: nat -> bool ensures ReceiveEach(Stream(segs), loss, n) == Marked(Kept(segs, loss, n)) {
        CleanRoundTrip(segs, loss, n);
      }
    } else {
      RoundTripIffClean(segs, n);
      KeptWhenNothingIsLost(segs, n);
      var never := (k: nat) => false;
      assert ReceiveEach(Stream(segs), never, n) != Marked(Kept(segs, never, n));
    }
  }

  // ---------------------------------------------------------------- the connection

  class Connection {
    /** sizeof(seg_t) */
    const size: nat
    const loss: nat -> bool
    var input: Bytes
    var calls: nat
    /** What is left of a frame that recvseg stopped in, and the segments behind it. */
    ghost var tail: Bytes
    ghost var pending: seq<Bytes>

    constructor (size: nat, loss: nat -> bool)
      ensures this.size == size && this.loss == loss && calls == 0
      ensures Valid() && tail == [] && pending == []
    {
      this.size, this.loss := size, loss;
      input, calls, tail, pending := [], 0, [], [];
    }

    /** Only full-size segments are in transit. */
    ghost predicate Valid()
      reads `input, `tail, `pending
    {
      input == tail + Stream(pending) && Tail(size, tail) && FullSize(size, pending)
    }

    method SendSeg(seg: Bytes)
      requires Valid() && |seg| == size
      modifies `input, `pending
      ensures Valid() && input == old(input) + ['!', '&'] + seg + ['!', '#'] && pending == old(pending) + [seg]
    {
      hide Stream;
      StreamSnoc(pending, seg);
      Associative(tail, Stream(pending), Frame(seg));
      FrameAppended(input, seg);
      input := input + ['!', '&'];
      input := input + seg;
      input := input + ['!', '#'];
      pending := pending + [seg];
    }

    /** recv(connection, &c, 1, 0) */
    method Recv() returns (ok: bool, c: char)
      modifies `input
      ensures ok <==> old(input) != []
      ensures ok ==> c == old(input)[0] && input == old(input)[1..]
      ensures !ok ==> input == old(input)
    {
      if input == [] {
        return false, '!';
      }
      c := input[0];
      input := input[1..];
      ok := true;
    }

    method SegLost() returns (b: bool)
      modifies `calls
      ensures b == loss(old(calls)) && calls == old(calls) + 1
    {
      b := loss(calls);
      calls := calls + 1;
    }

    /** The loop of recvseg, in a state and with the bytes in its buffer, on its way to the outcome all;
        start are the segments that were pending when it began. */
    ghost predicate Decoding(state: int, stored: Bytes, all: Received, start: seq<Bytes>)
      reads `input, `tail, `pending, `calls
    {
      && Inside(size, state, |stored|, tail) && |stored| <= size + 2
      && input == tail + Stream(pending) && FullSize(size, pending) && IsRest(pending, start)
      && all == Receive(input, state, stored, loss, calls)
    }

    /** The next byte and what it leads to, in the same order as in the loop. */
    method RecvByte(ghost state: int, ghost stored: Bytes, ghost all: Received, ghost start: seq<Bytes>)
      returns (ok: bool, c: char)
      requires Decoding(state, stored, all, start)
      modifies `input, `tail, `pending
      ensures Valid() && IsRest(pending, start) && (state >= 2 ==> |stored| < size + 2)
      ensures !ok ==> input == [] && all == EndOfInput(calls)
      ensures ok ==> |input| < |old(input)|
      ensures ok && !(state == 3 && c == '#') ==>
        Decoding(Feed(state, c), if state >= 2 then stored + [c] else stored, all, start)
      ensures ok && state == 3 && c == '#' ==>
        all == if loss(calls) then Receive(input, 0, [], loss, calls + 1) else Got(stored + ['#'], input, calls + 1)
    {
      hide Receive, Stream, Opened, FullSize, TailAfter, SegsAfter, IsRest;
      InsideTail(size, state, |stored|, tail);
      NextByte(size, state, |stored|, tail, pending, input);
      ReceiveByte(input, state, stored, loss, calls);
      hide Inside, Tail;
      RestOfRest(pending, start);
      ok, c := Recv();
      if ok {
        tail, pending := TailAfter(tail, pending), SegsAfter(tail, pending);
        InsideTail(size, if state == 3 && c == '#' then 0 else Feed(state, c),
                   if state == 3 && c == '#' then 0 else if state >= 2 then |stored| + 1 else |stored|, tail);
      }
    }

    /** The next segment that is not lost, or false at the end of the input.  The buffer has size + 2
        bytes, whose bounds are never left; a frame that ended early fills less than a segment, and the
        rest of seg is whatever the buffer held. */
    method RecvSeg() returns (ok: bool, seg: Bytes)
      requires Valid()
      modifies `input, `calls, `tail, `pending
      ensures Valid() && IsRest(pending, old(pending))
      ensures match Receive(old(input), 0, [], loss, old(calls))
              case EndOfInput(n) => !ok && calls == n && input == []
              case Got(stored, rest, n) => ok && calls == n && input == rest && Holds(size, seg, stored)
    {
      var buf := new char[size + 2];
      var idx := 0;
      var state := 0;
      ghost var start, all := pending, Receive(input, 0, [], loss, calls);
      hide Decoding, Receive, Valid, IsRest, Holds;
      Begin(all, start);
      ghost var stored: Bytes := [];
      while true
        invariant fresh(buf) && Buffered(size, buf, idx, state, stored) && Decoding(state, stored, all, start)
        decreases |input|
      {
        var got, complete;
        got, complete, idx, state, stored := Turn(buf, idx, state, stored, all, start);
        if !got {
          return false, [];
        }
        if complete {
          return true, buf[..size];
        }
      }
    }

    /** The buffer holds what the decoder has stored. */
    static ghost predicate Buffered(size: nat, buf: array<char>, idx: nat, state: int, stored: Bytes)
      reads buf
    {
      && buf.Length == size + 2 && idx <= size + 2 && buf[..idx] == stored
      && 0 <= state <= 3 && (state < 2 ==> idx == 0)
    }

    /** One turn of the loop of recvseg: no byte, a frame that is not lost, or more to come. */
    method Turn(buf: array<char>, idx0: nat, state0: int,
                ghost stored0: Bytes, ghost all: Received, ghost start: seq<Bytes>)
      returns (got: bool, complete: bool, idx: nat, state: int, ghost stored: Bytes)
      requires Buffered(size, buf, idx0, state0, stored0) && Decoding(state0, stored0, all, start)
      modifies buf, `input, `calls, `tail, `pending
      ensures !got ==> Valid() && IsRest(pending, start) && input == [] && all == EndOfInput(calls)
      ensures got && complete ==> Valid() && IsRest(pending, start) && all == Got(stored, input, calls)
      ensures got && complete ==> buf.Length == size + 2 && Holds(size, buf[..size], stored)
      ensures got && !complete ==> Buffered(size, buf, idx, state, stored) && Decoding(state, stored, all, start)
      ensures got ==> |input| < |old(input)|
    {
      hide Decoding, Receive, Valid, IsRest, Holds;
      idx, state, stored, complete := idx0, state0, stored0, false;
      var c;
      got, c := RecvByte(state, stored, all, start);
      if !got {
        return;
      }
      if state == 0 {
        if c == '!' {
          state := 1;
        }
      } else if state == 1 {
        state := if c == '&' then 2 else 0;
      } else {
        Store(buf, idx, c);
        idx, stored := idx + 1, stored + [c];
        if state == 2 {
          if c == '!' {
            state := 3;
          }
        } else if c == '#' {
          Copied(size, buf[..], idx);
          var lost := FrameLost(stored, all, start);
          state, idx := 0, 0;
          if lost {
            stored := [];
          } else {
            complete := true;
          }
        } else if c != '!' {
          state := 2;
        }
      }
    }

    /** Behind a frame: whether seglost() takes it. */
    method FrameLost(ghost stored: Bytes, ghost all: Received, ghost start: seq<Bytes>) returns (lost: bool)
      requires Valid() && IsRest(pending, start)
      requires all == if loss(calls) then Receive(input, 0, [], loss, calls + 1) else Got(stored, input, calls + 1)
      modifies `calls
      ensures lost ==> Decoding(0, [], all, start)
      ensures !lost ==> all == Got(stored, input, calls)
    {
      hide Receive, IsRest, Decoding;
      lost := SegLost();
      if lost {
        Begin(all, start);
      }
    }

    lemma Begin(all: Received, start: seq<Bytes>)
      requires Valid() && (pending == start || IsRest(pending, start)) && all == Receive(input, 0, [], loss, calls)
      ensures Decoding(0, [], all, start)
    {
    }

    static method Store(buf: array<char>, idx: nat, c: char)
      requires idx < buf.Length
      modifies buf
      ensures buf[..idx + 1] == old(buf[..idx]) + [c]
    {
      buf[idx] := c;
    }

    /** A handler's loop over recvseg. */
    method ReceiveAll() returns (got: seq<Bytes>)
      requires Valid()
      modifies `input, `calls, `tail, `pending
      ensures Valid() && input == []
      ensures HoldsEach(size, got, ReceiveEach(old(input), loss, old(calls)))
      ensures old(tail) == [] && AllClean(old(pending)) ==> got == Kept(old(pending), loss, old(calls))
    {
      got := [];
      ghost var found: seq<Bytes>, all := [], ReceiveEach(input, loss, calls);
      hide ReceiveEach, Receive, Stream, Holds, IsRest, Valid;
      if tail == [] {
        AtFrame();
      }
      assert found + all == all;
      while true
        invariant Valid() && HoldsEach(size, got, found)
        invariant found + ReceiveEach(input, loss, calls) == all
        decreases |input|
      {
        EachStep(input, loss, calls, found, all);
        ghost var r := Receive(input, 0, [], loss, calls);
        var ok, seg := RecvSeg();
        if !ok {
          break;
        }
        got := got + [seg];
        found := found + [r.stored];
      }
      if old(tail) == [] && AllClean(old(pending)) {
        CleanSegmentsArrive(size, old(pending), loss, old(calls), got);
      }
    }

    lemma AtFrame()
      requires Valid() && tail == []
      ensures input == Stream(pending) && FullSize(size, pending)
    {
    }
  }

  lemma EachStep(input: Bytes, loss: nat -> bool, n: nat, found: seq<Bytes>, all: seq<Bytes>)
    requires found + ReceiveEach(input, loss, n) == all
    ensures match Receive(input, 0, [], loss, n)
            case EndOfInput(_) => found == all
            case Got(stored, rest, m) => found + [stored] + ReceiveEach(rest, loss, m) == all
  {
  }

  /** What is left of a frame, and the segments behind it, once the next byte is read. */
  function TailAfter(tail: Bytes, segs: seq<Bytes>): Bytes {
    if tail != [] then tail[1..] else if segs != [] then Opened(segs[0]) else []
  }

  function SegsAfter(tail: Bytes, segs: seq<Bytes>): seq<Bytes> {
    if tail != [] || segs == [] then segs else segs[1..]
  }

  lemma InputAfter(size: nat, tail: Bytes, segs: seq<Bytes>)
    requires FullSize(size, segs)
    ensures FullSize(size, SegsAfter(tail, segs))
    ensures var input := tail + Stream(segs);
            if tail == [] && segs == [] then input == []
            else
              && input[..1] == (if tail == [] then ['!'] else tail[..1])
              && input[1..] == TailAfter(tail, segs) + Stream(SegsAfter(tail, segs))
  {
    if tail != [] {
      assert (tail + Stream(segs))[1..] == tail[1..] + Stream(segs);
    } else if segs != [] {
      NextBegins(size, segs);
      hide Stream, Opened;
      assert tail + Stream(segs) == Stream(segs);
    }
  }

  /** One more byte, inside a frame or the first of the next one. */
  lemma NextByte(size: nat, state: int, idx: nat, tail: Bytes, segs: seq<Bytes>, input: Bytes)
    requires Inside(size, state, idx, tail) && FullSize(size, segs) && input == tail + Stream(segs)
    ensures input != [] ==>
      && input[1..] == TailAfter(tail, segs) + Stream(SegsAfter(tail, segs)) && FullSize(size, SegsAfter(tail, segs))
      && if state == 3 && input[0] == '#' then Inside(size, 0, 0, TailAfter(tail, segs))
         else Inside(size, Feed(state, input[0]), if state >= 2 then idx + 1 else idx, TailAfter(tail, segs))
    ensures state >= 2 ==> idx < size + 2
  {
    InputAfter(size, tail, segs);
    hide Stream, FullSize, Opened;
    if tail != [] {
      StepInside(size, state, idx, tail);
      assert input[..1][0] == tail[0];
    } else if segs != [] {
      NextBegins(size, segs);
      assert input[..1][0] == '!';
    }
  }

  lemma InsideTail(size: nat, state: int, idx: nat, tail: Bytes)
    ensures Inside(size, state, idx, tail) ==> Tail(size, tail) && 0 <= state <= 3 && (tail == [] ==> state == 0)
  {
  }

  /** The segments at the end of start. */
  ghost predicate IsRest(segs: seq<Bytes>, start: seq<Bytes>) {
    |segs| <= |start| && segs == start[|start| - |segs|..]
  }

  lemma RestOfRest(segs: seq<Bytes>, start: seq<Bytes>)
    requires IsRest(segs, start)
    ensures forall tail :: IsRest(SegsAfter(tail, segs), start)
  {
  }

  /** seg is what memcpy takes from a buffer that begins with stored. */
  ghost predicate Holds(size: nat, seg: Bytes, stored: Bytes) {
    |seg| == size && if |stored| >= size then seg == stored[..size] else stored <= seg
  }

  lemma Copied(size: nat, buf: Bytes, idx: nat)
    requires |buf| == size + 2 && idx <= size + 2
    ensures Holds(size, buf[..size], buf[..idx])
  {
  }

  ghost predicate HoldsEach(size: nat, got: seq<Bytes>, found: seq<Bytes>) {
    |got| == |found| && forall k :: 0 <= k < |got| ==> Holds(size, got[k], found[k])
  }

  lemma {:induction false} KeptAre(segs: seq<Bytes>, loss: nat -> bool, n: nat, size: nat)
    requires FullSize(size, segs)
    ensures FullSize(size, Kept(segs, loss, n))
  {
    if segs == [] {
    } else {
      KeptAre(segs[1..], loss, n + 1, size);
    }
  }

  lemma {:induction false} MarkedAt(segs: seq<Bytes>, k: nat)
    requires k < |segs|
    ensures |Marked(segs)| == |segs| && Marked(segs)[k] == segs[k] + ['!', '#']
  {
    if k == 0 {
      assert |segs| > 1 ==> |Marked(segs[1..])| == |segs[1..]| by {
        if |segs| > 1 {
          MarkedAt(segs[1..], 0);
        }
      }
    } else {
      MarkedAt(segs[1..], k - 1);
    }
  }

  /** A full-size segment is what memcpy takes from its stored frame. */
  lemma CleanSegmentsArrive(size: nat, segs: seq<Bytes>, loss: nat -> bool, n: nat, got: seq<Bytes>)
    requires FullSize(size, segs) && AllClean(segs) && HoldsEach(size, got, ReceiveEach(Stream(segs), loss, n))
    ensures got == Kept(segs, loss, n)
  {
    CleanRoundTrip(segs, loss, n);
    var kept := Kept(segs, loss, n);
    KeptAre(segs, loss, n, size);
    if kept != [] {
      MarkedAt(kept, 0);
    }
    forall k | 0 <= k < |kept| ensures got[k] == kept[k] {
      MarkedAt(kept, k);
    }
  }

  lemma {:induction false} StreamSnoc(segs: seq<Bytes>, seg: Bytes)
    ensures Stream(segs + [seg]) == Stream(segs) + Frame(seg)
  {
    if segs == [] {
      assert [seg][1..] == [];
      assert Stream([seg]) == Frame(seg) + Stream([]);
    } else {
      StreamSnoc(segs[1..], seg);
      assert (segs + [seg])[1..] == segs[1..] + [seg];
    }
  }
}
