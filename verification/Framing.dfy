/**
 Length-prefixed frames over a byte stream that arrives in arbitrary chunks:
 `read_ahead` and the framing part of `process` (src/net/tmapp.cc), and the read
 loop of a session (src/net/session.cc).
 */
module Framing {
  import opened Wrappers
  import opened Buffers

  type Bytes = seq<Byte>

  const LIMIT_31: nat := 0x8000_0000

  /** What `read_ahead` finds at the front of the buffer. */
  datatype Ahead =
    | Wait                           // not enough bytes yet
    | Ready(used: nat, size: nat)    // a prefix of `used` bytes announces `size` bytes, and they are here
    | Broken                         // the prefix leaves 31 bits, where C++ does not fix what the shift gives

  function LookFrom(s: Bytes, idx: nat, acc: nat): (r: Ahead)
    requires idx <= |s|
    ensures r.Ready? ==> idx < r.used && r.used + r.size <= |s|
    decreases |s| - idx
  {
    if idx == |s| then Wait
    else if idx >= 5 || acc + Part(s[idx], idx) >= LIMIT_31 then Broken
    else
      var value := acc + Part(s[idx], idx);
      if s[idx] >= 128 then LookFrom(s, idx + 1, value)
      else if |s| > idx + value / 2 then Ready(idx + 1, value / 2)
      else Wait
  }

  function LookAhead(s: Bytes): (r: Ahead)
    ensures r.Ready? ==> 0 < r.used && r.used + r.size <= |s|
  {
    LookFrom(s, 0, 0)
  }

  // ---------------------------------------------------------------- streams

  /** The frames delivered so far, in order, and the bytes still held back. */
  datatype Reader = Reader(delivered: seq<Bytes>, held: Bytes, broken: bool)

  /** All the frames of a stream, and its incomplete tail. */
  function Frames(s: Bytes): Reader
    decreases |s|
  {
    match LookAhead(s)
    case Wait => Reader([], s, false)
    case Broken => Reader([], s, true)
    case Ready(used, size) =>
      var rest := Frames(s[used + size..]);
      Reader([s[used..used + size]] + rest.delivered, rest.held, rest.broken)
  }

  lemma FirstFrame(s: Bytes)
    ensures LookAhead(s).Broken? ==> Frames(s) == Reader([], s, true)
    ensures LookAhead(s).Wait? ==> Frames(s) == Reader([], s, false)
    ensures LookAhead(s).Ready? ==>
              var (n, m) := (LookAhead(s).used, LookAhead(s).used + LookAhead(s).size);
              Frames(s) == Reader([s[n..m]] + Frames(s[m..]).delivered, Frames(s[m..]).held, Frames(s[m..]).broken)
  {
  }

  /** One received chunk: the loop of `process_read`. */
  function Feed(r: Reader, chunk: Bytes): Reader {
    var more := Frames(r.held + chunk);
    Reader(r.delivered + more.delivered, more.held, more.broken)
  }

  function FeedAll(r: Reader, chunks: seq<Bytes>): Reader
    decreases |chunks|
  {
    if chunks == [] then r else FeedAll(Feed(r, chunks[0]), chunks[1..])
  }

  function Concat(chunks: seq<Bytes>): Bytes {
    if chunks == [] then [] else chunks[0] + Concat(chunks[1..])
  }

  /** More bytes never change a prefix that was already complete or already broken. */
  lemma {:induction false} LookFromIsStable(s: Bytes, t: Bytes, idx: nat, acc: nat)
    requires idx <= |s|
    ensures !LookFrom(s, idx, acc).Wait? ==> LookFrom(s + t, idx, acc) == LookFrom(s, idx, acc)
    decreases |s| - idx
  {
    if idx < |s| {
      assert (s + t)[idx] == s[idx];
      if !(idx >= 5 || acc + Part(s[idx], idx) >= LIMIT_31) && s[idx] >= 128 {
        LookFromIsStable(s, t, idx + 1, acc + Part(s[idx], idx));
      }
    }
  }

  /** Receiving `b` after `a` is receiving `a + b`, for every stream, well-formed or not. */
  lemma {:induction false} FramesOfConcat(a: Bytes, b: Bytes)
    ensures Frames(a + b) == Feed(Frames(a), b)
    decreases |a|
  {
    hide Frames, LookAhead;
    FirstFrame(a);
    FirstFrame(a + b);
    LookAheadIsStable(a, b);
    if LookAhead(a).Ready? {
      var (n, m) := (LookAhead(a).used, LookAhead(a).used + LookAhead(a).size);
      assert (a + b)[m..] == a[m..] + b && (a + b)[n..m] == a[n..m];
      FramesOfConcat(a[m..], b);
      Regroup([a[n..m]], Frames(a[m..]).delivered, Frames(Frames(a[m..]).held + b).delivered);
    } else {
      Regroup([], [], Frames(a + b).delivered);
    }
  }

  lemma LookAheadIsStable(s: Bytes, t: Bytes)
    ensures !LookAhead(s).Wait? ==> LookAhead(s + t) == LookAhead(s)
  {
    LookFromIsStable(s, t, 0, 0);
  }

  lemma Regroup(a: seq<Bytes>, b: seq<Bytes>, c: seq<Bytes>)
    ensures a + (b + c) == (a + b) + c
    ensures [] + c == c
  {
  }

  lemma {:induction false} FeedAllIsFrames(a: Bytes, chunks: seq<Bytes>)
    ensures FeedAll(Frames(a), chunks) == Frames(a + Concat(chunks))
    decreases |chunks|
  {
    hide Frames, Feed;
    if chunks == [] {
      assert a + [] == a;
    } else {
      FramesOfConcat(a, chunks[0]);
      FeedAllIsFrames(a + chunks[0], chunks[1..]);
      assert a + chunks[0] + Concat(chunks[1..]) == a + Concat(chunks);
    }
  }

  /** However a stream is cut into chunks, the same frames come out and the same tail is held. */
  lemma ChunkingIsInvisible(chunks: seq<Bytes>, others: seq<Bytes>)
    requires Concat(chunks) == Concat(others)
    ensures FeedAll(Frames([]), chunks) == FeedAll(Frames([]), others)
  {
    FeedAllIsFrames([], chunks);
    FeedAllIsFrames([], others);
  }

  // ---------------------------------------------------------------- the written prefix

  /** What `process` writes for a response: twice its length as a 64-bit varint, then the response. */
  function Frame(payload: Bytes): Bytes {
    Varint(2 * |payload|) + payload
  }

  function Written(payloads: seq<Bytes>): Bytes {
    if payloads == [] then [] else Frame(payloads[0]) + Written(payloads[1..])
  }

  /** What another reader finds in a written response: a varint of twice its length, and then the response. */
  lemma FrameIs(payload: Bytes)
    requires 2 * |payload| < 0x1_0000_0000_0000_0000
    ensures var prefix := Decode(U64, Frame(payload));
            prefix.Value? && prefix.v == 2 * |payload| && Frame(payload)[prefix.used..] == payload
  {
    hide Varint, Decode;
    VarintRoundTrip(U64, 2 * |payload|, payload);
  }

  lemma {:induction false} LookMeans(s: Bytes, idx: nat, acc: nat, k: nat)
    requires idx < k <= 5 && Terminated(s, k)
    requires acc == Spelled(s[..idx]) && Spelled(s[..k]) < LIMIT_31
    ensures LookFrom(s, idx, acc) ==
            if |s| > k - 1 + Spelled(s[..k]) / 2 then Ready(k, Spelled(s[..k]) / 2) else Wait
    decreases k - idx
  {
    SpelledNext(s, idx);
    SpelledGrows(s, idx + 1, k);
    if idx + 1 < k {
      LookMeans(s, idx + 1, acc + Part(s[idx], idx), k);
    }
  }

  lemma {:induction false} LookBreaks(s: Bytes, idx: nat, acc: nat, k: nat)
    requires idx < k && Terminated(s, k) && acc == Spelled(s[..idx])
    ensures LookFrom(s, idx, acc).Broken? <==> k > 5 || Spelled(s[..k]) >= LIMIT_31
    decreases k - idx
  {
    SpelledNext(s, idx);
    SpelledGrows(s, idx + 1, k);
    if idx < 5 && acc + Part(s[idx], idx) < LIMIT_31 && idx + 1 < k {
      LookBreaks(s, idx + 1, acc + Part(s[idx], idx), k);
    }
  }

  /** A complete prefix is broken exactly when it has more than five bytes or spells more than 31 bits. */
  lemma BrokenExactly(s: Bytes, k: nat)
    requires Terminated(s, k)
    ensures LookAhead(s).Broken? <==> k > 5 || Spelled(s[..k]) >= LIMIT_31
  {
    EmptySpells(s);
    LookBreaks(s, 0, 0, k);
  }

  lemma Fits31(v: nat)
    requires v < LIMIT_31
    ensures |Varint(v)| <= 5
  {
    PowersOf128();
    VarintFits(v, 5);
  }

  /** `read_ahead` inverts the written prefix: it waits for the whole payload and then announces exactly it. */
  lemma LookAheadInverts(payload: Bytes, t: Bytes)
    requires 2 * |payload| < LIMIT_31
    ensures LookAhead(Varint(2 * |payload|) + t) ==
            if |t| >= |payload| then Ready(|Varint(2 * |payload|)|, |payload|) else Wait
  {
    hide Varint, Spelled, Terminated;
    var v := 2 * |payload|;
    var s, k := Varint(v) + t, |Varint(v)|;
    VarintSpells(v);
    PrefixTerminated(Varint(v), t);
    Fits31(v);
    EmptySpells(s);
    LookMeans(s, 0, 0, k);
  }

  /** A reader gets back exactly the payloads that were written, and holds nothing. */
  lemma {:induction false} FramesOfWritten(payloads: seq<Bytes>)
    requires forall i :: 0 <= i < |payloads| ==> 2 * |payloads[i]| < LIMIT_31
    ensures Frames(Written(payloads)) == Reader(payloads, [], false)
  {
    hide Varint;
    if payloads == [] {
      assert LookAhead([]) == Wait;
    } else {
      var p, rest := payloads[0], Written(payloads[1..]);
      FramesOfWritten(payloads[1..]);
      var v := Varint(2 * |p|);
      LookAheadInverts(p, p + rest);
      var s := v + (p + rest);
      assert Written(payloads) == s;
      assert s[|v|..|v| + |p|] == p && s[|v| + |p|..] == rest;
      assert [p] + payloads[1..] == payloads;
    }
  }

  // ---------------------------------------------------------------- a session

  /** An application: its response to a frame may depend on all the frames before it; `None` when it throws. */
  type Application = (seq<Bytes>, Bytes) -> Option<Bytes>

  /** The responses to `frames`; a frame on which the application throws has none. */
  function Responses(app: Application, frames: seq<Bytes>): (r: seq<Bytes>)
    ensures |r| == |frames| <==> Answers(app, frames)
    ensures |r| <= |frames|
  {
    if frames == [] then []
    else
      var n := |frames| - 1;
      var last := app(frames[..n], frames[n]);
      Responses(app, frames[..n]) + if last.Some? then [last.value] else []
  }

  /** The application throws on none of `frames`. */
  predicate Answers(app: Application, frames: seq<Bytes>) {
    frames == []
    || (Answers(app, frames[..|frames| - 1]) && app(frames[..|frames| - 1], frames[|frames| - 1]).Some?)
  }

  lemma AppendFrame(app: Application, frames: seq<Bytes>, f: Bytes)
    ensures Responses(app, frames + [f])
            == Responses(app, frames) + if app(frames, f).Some? then [app(frames, f).value] else []
    ensures Answers(app, frames + [f]) <==> Answers(app, frames) && app(frames, f).Some?
  {
    assert (frames + [f])[..|frames|] == frames;
  }

  lemma {:induction false} AnswersBefore(app: Application, frames: seq<Bytes>, more: seq<Bytes>)
    requires Answers(app, frames + more)
    ensures Answers(app, frames)
    decreases |more|
  {
    if more == [] {
      assert frames + more == frames;
    } else {
      assert (frames + more)[..|frames + more| - 1] == frames + more[..|more| - 1];
      AnswersBefore(app, frames, more[..|more| - 1]);
    }
  }

  /** How a call on a session ends: for want of bytes, with a response, with a throw, or at a prefix that leaves 31 bits. */
  datatype Ending = Waits | Answered | Thrown | BrokenPrefix

  lemma {:induction false} WrittenAppends(a: seq<Bytes>, b: Bytes)
    ensures Written(a + [b]) == Written(a) + Frame(b)
  {
    if a == [] {
      assert [b][1..] == [] && [] + [b] == [b];
    } else {
      assert (a + [b])[1..] == a[1..] + [b];
      WrittenAppends(a[1..], b);
    }
  }

  class Session {
    const app: Application
    const readBuffer: Buffer
    const writeBuffer: Buffer
    /** The frames handed to the application, which stand for the application's state. */
    var delivered: seq<Bytes>
    /** Everything received, and how much of the output was sent. */
    ghost var received: Bytes
    ghost var sent: nat

    ghost predicate Valid()
      reads this, readBuffer, writeBuffer
    {
      && readBuffer != writeBuffer
      && Frames(received) == Reader(delivered, readBuffer.buf, false)
      && Answers(app, delivered) && Pending()
    }

    /** What waits to be sent is the unsent end of the responses to what was delivered. */
    ghost predicate Pending()
      reads `sent, `delivered, writeBuffer
    {
      var output := Written(Responses(app, delivered));
      sent <= |output| && writeBuffer.buf == output[sent..]
    }

    constructor (app: Application)
      ensures Valid() && fresh(readBuffer) && fresh(writeBuffer)
      ensures received == [] && delivered == [] && sent == 0 && this.app == app
    {
      this.app := app;
      readBuffer := new Buffer([]);
      writeBuffer := new Buffer([]);
      received := [];
      delivered := [];
      sent := 0;
    }

    /** The loop of `read_ahead`, up to where a shift is undefined. */
    method ReadAhead() returns (r: Ahead)
      modifies readBuffer
      ensures r == LookAhead(old(readBuffer.buf))
      ensures readBuffer.buf == if r.Ready? then old(readBuffer.buf)[r.used..] else old(readBuffer.buf)
    {
      var value: nat := 0;
      var idx := 0;
      while idx < |readBuffer.buf|
        invariant idx <= |readBuffer.buf| && readBuffer.buf == old(readBuffer.buf)
        invariant LookFrom(readBuffer.buf, idx, value) == LookAhead(readBuffer.buf)
      {
        var b := readBuffer.buf[idx];
        if idx >= 5 || value + Part(b, idx) >= LIMIT_31 {
          return Broken;
        }
        value := value + Part(b, idx);
        if b < 128 {
          value := value / 2;
          if |readBuffer.buf| > idx + value {
            readBuffer.Consume(1 + idx);
            return Ready(idx + 1, value);
          }
          return Wait;
        }
        idx := idx + 1;
      }
      return Wait;
    }

    /** `process`: at most one frame is taken from the front of the read buffer and answered. */
    method Process() returns (end: Ending)
      requires readBuffer != writeBuffer && Pending()
      modifies readBuffer, writeBuffer, this`delivered
      ensures Pending()
      ensures end.Waits? <==> LookAhead(old(readBuffer.buf)).Wait?
      ensures end.BrokenPrefix? <==> LookAhead(old(readBuffer.buf)).Broken?
      ensures end.Waits? || end.BrokenPrefix? ==> readBuffer.buf == old(readBuffer.buf) && delivered == old(delivered)
      ensures end.Answered? || end.Thrown? ==>
                var (s, n) := (old(readBuffer.buf), LookAhead(old(readBuffer.buf)));
                && readBuffer.buf == s[n.used + n.size..]
                && delivered == old(delivered) + [s[n.used..n.used + n.size]]
                && (end.Answered? <==> app(old(delivered), s[n.used..n.used + n.size]).Some?)
    {
      hide LookAhead, Written, Responses, Varint;
      var ahead := ReadAhead();
      match ahead
      case Wait => end := Waits;
      case Broken => end := BrokenPrefix;
      case Ready(used, size) =>
        var request := readBuffer.buf[..size];
        readBuffer.Consume(size);
        ghost var s := old(readBuffer.buf);
        assert s[used..][..size] == s[used..used + size] && s[used..][size..] == s[used + size..];
        var response := app(delivered, request);
        AppendFrame(app, delivered, request);
        if response.None? {
          assert Responses(app, delivered) + [] == Responses(app, delivered);
          delivered := delivered + [request];
          return Thrown;
        }
        writeBuffer.PushVarint(2 * |response.value|);
        writeBuffer.Append(response.value);
        WrittenAppends(Responses(app, delivered), response.value);
        delivered := delivered + [request];
        end := Answered;
    }

    /**
     `process_read`: when no call throws and no prefix is broken, after any number of chunks the frames of
     everything received have been delivered in order, and exactly the incomplete tail is held.  Otherwise
     the frames before the first broken prefix, or up to the first that throws, were delivered.
     */
    method ProcessRead(chunk: Bytes) returns (end: Ending)
      requires Valid()
      modifies this, readBuffer, writeBuffer
      ensures received == old(received) + chunk && sent == old(sent) && Pending()
      ensures var all := Frames(received);
        && (end.Waits? <==> Answers(app, all.delivered) && !all.broken)
        && (end.BrokenPrefix? <==> Answers(app, all.delivered) && all.broken)
        && (end.Thrown? <==> !Answers(app, all.delivered))
        && (!end.Thrown? ==> delivered == all.delivered && readBuffer.buf == all.held)
        && (end.Thrown? ==> 0 < |delivered| && delivered <= all.delivered && !Answers(app, delivered)
                            && Answers(app, delivered[..|delivered| - 1]))
      ensures end.Waits? ==>
        && Valid()
        && Reader(delivered, readBuffer.buf, false) == Feed(old(Reader(delivered, readBuffer.buf, false)), chunk)
    {
      hide Frames, LookAhead, Pending, Answers, Responses;
      FramesOfConcat(received, chunk);
      ghost var target := Frames(received + chunk);
      readBuffer.Append(chunk);
      received := received + chunk;
      end := Answered;
      while end.Answered?
        invariant readBuffer != writeBuffer && Pending() && Answers(app, delivered)
        invariant received == old(received) + chunk && sent == old(sent)
        invariant var rest := Frames(readBuffer.buf);
                  target == Reader(delivered + rest.delivered, rest.held, rest.broken)
        invariant end.Waits? ==> LookAhead(readBuffer.buf).Wait?
        invariant end.BrokenPrefix? ==> LookAhead(readBuffer.buf).Broken?
        invariant !end.Thrown?
        decreases end.Answered?, |readBuffer.buf|
      {
        FirstFrame(readBuffer.buf);
        ghost var (before, held) := (delivered, readBuffer.buf);
        end := Process();
        if end.Answered? || end.Thrown? {
          ghost var n := LookAhead(held);
          ghost var f := held[n.used..n.used + n.size];
          AppendFrame(app, before, f);
          Regroup(before, [f], Frames(readBuffer.buf).delivered);
          if end.Thrown? {
            ghost var rest := Frames(readBuffer.buf).delivered;
            assert delivered[..|delivered| - 1] == before;
            if Answers(app, delivered + rest) {
              AnswersBefore(app, delivered, rest);
            }
            return;
          }
        }
      }
      FirstFrame(readBuffer.buf);
      assert delivered + [] == delivered;
    }

    /** `process_write`: the socket took the first `length` bytes. */
    method ProcessWrite(length: nat)
      requires Valid() && length <= |writeBuffer.buf|
      modifies writeBuffer, this`sent
      ensures Valid() && sent == old(sent) + length
    {
      writeBuffer.Consume(length);
      sent := sent + length;
    }
  }
}
