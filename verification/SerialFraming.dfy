/**
 The byte-at-a-time receiver of the serial link: a two-byte little-endian length, then that many
 bytes. A length of zero or above 256 is thrown away and the next byte starts a new length.
 */
module SerialFraming {
  import opened Basics

  const MAX_PAYLOAD: nat := 256

  /** Complete payloads at the front of a byte string, and the bytes of the frame still under way. */
  datatype Parsed = Parsed(frames: seq<seq<byte>>, rest: seq<byte>)

  function LengthOf(lo: byte, hi: byte): nat { lo + 0x100 * hi as int }

  function Parse(s: seq<byte>): (p: Parsed) {
    if |s| < 2 then Parsed([], s)
    else
      var len := LengthOf(s[0], s[1]);
      if len == 0 || len > MAX_PAYLOAD then Parse(s[2..])
      else if |s| < 2 + len then Parsed([], s)
      else var p := Parse(s[2 + len..]); Parsed([s[2..2 + len]] + p.frames, p.rest)
  }

  /** One payload as the sender frames it. */
  function Framed(payload: seq<byte>): (s: seq<byte>)
    requires |payload| < 0x1_0000
    ensures |s| == 2 + |payload|
  {
    [|payload| % 0x100, |payload| / 0x100] + payload
  }

  function FramedAll(payloads: seq<seq<byte>>): seq<byte>
    requires forall p | p in payloads :: |p| < 0x1_0000
  {
    if payloads == [] then [] else Framed(payloads[0]) + FramedAll(payloads[1..])
  }

  /** How many bytes the first length takes with it, and the payload it delimits, if legal. */
  function FirstSize(s: seq<byte>): (n: nat)
    requires |s| >= 2
  {
    var len := LengthOf(s[0], s[1]);
    if len == 0 || len > MAX_PAYLOAD then 2 else 2 + len
  }

  function FirstFrame(s: seq<byte>): seq<seq<byte>>
    requires 2 <= |s| && FirstSize(s) <= |s|
  {
    if FirstSize(s) == 2 then [] else [s[2..FirstSize(s)]]
  }

  lemma ParseFirst(s: seq<byte>)
    ensures |s| < 2 || |s| < FirstSize(s) ==> Parse(s) == Parsed([], s)
    ensures |s| >= 2 && |s| >= FirstSize(s) ==>
              var p := Parse(s[FirstSize(s)..]); Parse(s) == Parsed(FirstFrame(s) + p.frames, p.rest)
  {
    if |s| >= 2 && |s| >= FirstSize(s) {
      assert [] + Parse(s[2..]).frames == Parse(s[2..]).frames;
    }
  }

  /** Input may arrive in any chunks: parsing goes on from the unfinished frame. */
  lemma {:induction false} ParseChunks(a: seq<byte>, b: seq<byte>)
    ensures Parse(a + b) == Parsed(Parse(a).frames + Parse(Parse(a).rest + b).frames, Parse(Parse(a).rest + b).rest)
    decreases |a|
  {
    hide Parse, FirstSize, FirstFrame;
    ParseFirst(a);
    if |a| < 2 || |a| < FirstSize(a) {
      assert [] + Parse(a + b).frames == Parse(a + b).frames;
    } else {
      var n := FirstSize(a);
      ParseFirst(a + b);
      FirstPrefix(a, b);
      assert (a + b)[n..] == a[n..] + b;
      ParseChunks(a[n..], b);
      var tail := Parse(Parse(a).rest + b).frames;
      assert FirstFrame(a) + (Parse(a[n..]).frames + tail) == (FirstFrame(a) + Parse(a[n..]).frames) + tail;
    }
  }

  lemma FirstPrefix(a: seq<byte>, b: seq<byte>)
    requires 2 <= |a| && FirstSize(a) <= |a|
    ensures 2 <= FirstSize(a) == FirstSize(a + b) && FirstFrame(a + b) == FirstFrame(a)
  {
    assert (a + b)[2..FirstSize(a)] == a[2..FirstSize(a)];
  }

  /** Framed payloads of legal length come out as they went in, and the receiver ends idle. */
  lemma {:induction false} FramingRoundTrip(payloads: seq<seq<byte>>)
    requires forall p | p in payloads :: 1 <= |p| <= MAX_PAYLOAD
    ensures Parse(FramedAll(payloads)) == Parsed(payloads, [])
  {
    if payloads != [] {
      var p, tail := payloads[0], FramedAll(payloads[1..]);
      FramingRoundTrip(payloads[1..]);
      var s := Framed(p) + tail;
      assert s[2..2 + |p|] == p && s[2 + |p|..] == tail;
      assert [p] + payloads[1..] == payloads;
    }
  }

  lemma NothingFramed(payloads: seq<seq<byte>>)
    ensures FramedAll(payloads[..0]) == []
  {
  }

  lemma FramedNext(payloads: seq<seq<byte>>, i: nat)
    requires (forall p | p in payloads :: |p| < 0x1_0000) && i < |payloads|
    ensures var p := payloads[i];
            FramedAll(payloads[..i + 1]) == FramedAll(payloads[..i]) + [|p| % 0x100, |p| / 0x100] + p
  {
    FramedSnoc(payloads[..i], payloads[i]);
    assert payloads[..i + 1] == payloads[..i] + [payloads[i]];
    assert payloads[i] in payloads;
    var front := FramedAll(payloads[..i]);
    assert front + Framed(payloads[i]) == front + [|payloads[i]| % 0x100, |payloads[i]| / 0x100] + payloads[i];
  }

  lemma {:induction false} FramedSnoc(payloads: seq<seq<byte>>, p: seq<byte>)
    requires (forall q | q in payloads :: |q| < 0x1_0000) && |p| < 0x1_0000
    ensures FramedAll(payloads + [p]) == FramedAll(payloads) + Framed(p)
  {
    hide Framed;
    if payloads == [] {
      assert payloads + [p] == [p] && [p][1..] == [];
      assert FramedAll([p]) == Framed(p) + FramedAll([]) && FramedAll([]) == [];
      assert Framed(p) + [] == [] + Framed(p);
    } else {
      FramedSnoc(payloads[1..], p);
      assert (payloads + [p])[1..] == payloads[1..] + [p];
      var first, rest := Framed(payloads[0]), FramedAll(payloads[1..]);
      assert first + (rest + Framed(p)) == first + rest + Framed(p);
    }
  }

  /** Chunks put together. */
  function Joined(chunks: seq<seq<byte>>): seq<byte> {
    if chunks == [] then [] else Joined(chunks[..|chunks| - 1]) + chunks[|chunks| - 1]
  }

  datatype FrameState = AwaitingLen1 | AwaitingLen2 | AwaitingPayload

  class Receiver {
    var frameState: FrameState
    var frameLength: uint16
    var frameIndex: nat
    const payloadBuffer: array<byte>
    var handled: seq<seq<byte>> // payloads passed to handleCompleteFrame so far

    /** The payload index stays below the length, so the overflow branch is never taken. */
    ghost predicate Valid()
      reads this
    {
      && payloadBuffer.Length == MAX_PAYLOAD
      && (frameState == AwaitingLen2 ==> frameLength < 0x100)
      && (frameState == AwaitingPayload ==> frameIndex < frameLength <= MAX_PAYLOAD)
    }

    /** The bytes of the frame under way. */
    ghost function Pending(): (s: seq<byte>)
      requires Valid()
      reads this, payloadBuffer
    {
      match frameState
      case AwaitingLen1 => []
      case AwaitingLen2 => [frameLength]
      case AwaitingPayload => [frameLength % 0x100, frameLength / 0x100] + payloadBuffer[..frameIndex]
    }

    constructor ()
      ensures Valid() && Pending() == [] && handled == [] && fresh(payloadBuffer)
    {
      frameState := AwaitingLen1;
      frameLength, frameIndex, handled := 0, 0, [];
      payloadBuffer := new byte[MAX_PAYLOAD](_ => 0);
    }

    method HandleByte(byteIn: byte)
      requires Valid()
      modifies this, payloadBuffer
      ensures Valid()
      ensures var p := Parse(old(Pending()) + [byteIn]);
              handled == old(handled) + p.frames && Pending() == p.rest
    {
      ghost var before := Pending();
      match frameState
      case AwaitingLen1 =>
        frameLength := byteIn;
        frameState := AwaitingLen2;
      case AwaitingLen2 =>
        ghost var lo := frameLength;
        frameLength := frameLength + 0x100 * byteIn as int;
        assert before + [byteIn] == [lo, byteIn];
        if frameLength == 0 || frameLength > MAX_PAYLOAD {
          frameState := AwaitingLen1;
          frameLength, frameIndex := 0, 0;
        } else {
          frameIndex := 0;
          frameState := AwaitingPayload;
          assert frameLength % 0x100 == lo && frameLength / 0x100 == byteIn;
        }
      case AwaitingPayload =>
        if frameIndex >= MAX_PAYLOAD {
          assert false; // the overflow branch
        } else {
          ghost var s := before + [byteIn];
          payloadBuffer[frameIndex] := byteIn;
          frameIndex := frameIndex + 1;
          assert s == [frameLength % 0x100, frameLength / 0x100] + payloadBuffer[..frameIndex];
          assert LengthOf(s[0], s[1]) == frameLength;
          if frameIndex >= frameLength {
            assert s[2..2 + frameLength] == payloadBuffer[..frameLength] && s[2 + frameLength..] == [];
            handled := handled + [payloadBuffer[..frameLength]];
            frameState := AwaitingLen1;
            frameLength, frameIndex := 0, 0;
          }
        }
    }

    /** The receive loop over one chunk: hands over what the parser finds, keeps what it leaves. */
    method Receive(input: seq<byte>)
      requires Valid()
      modifies this, payloadBuffer
      ensures Valid()
      ensures var p := Parse(old(Pending()) + input);
              handled == old(handled) + p.frames && Pending() == p.rest
    {
      hide Parse;
      ghost var start, before := Pending(), handled;
      var i := 0;
      PendingIsPartial();
      assert start + input[..0] == start;
      while i < |input|
        invariant 0 <= i <= |input| && Valid()
        invariant handled == before + Parse(start + input[..i]).frames
        invariant Pending() == Parse(start + input[..i]).rest
      {
        ParseChunks(start + input[..i], [input[i]]);
        assert start + input[..i] + [input[i]] == start + input[..i + 1];
        HandleByte(input[i]);
        i := i + 1;
      }
      assert input[..|input|] == input;
    }

    /** Any number of calls, each finding whatever bytes have arrived by then. */
    method ReceiveAll(chunks: seq<seq<byte>>)
      requires Valid()
      modifies this, payloadBuffer
      ensures Valid()
      ensures var p := Parse(old(Pending()) + Joined(chunks));
              handled == old(handled) + p.frames && Pending() == p.rest
    {
      hide Parse;
      ghost var start, before := Pending(), handled;
      PendingIsPartial();
      assert start + Joined(chunks[..0]) == start;
      for i := 0 to |chunks|
        invariant Valid()
        invariant handled == before + Parse(start + Joined(chunks[..i])).frames
        invariant Pending() == Parse(start + Joined(chunks[..i])).rest
      {
        ParseChunks(start + Joined(chunks[..i]), chunks[i]);
        assert chunks[..i + 1][..i] == chunks[..i];
        assert start + Joined(chunks[..i]) + chunks[i] == start + Joined(chunks[..i + 1]);
        Receive(chunks[i]);
      }
      assert chunks[..|chunks|] == chunks;
    }

    /** Framed payloads of legal length, cut into any chunks: an idle receiver hands over exactly them, in order, and
        ends idle. */
    method ReceiveFramed(chunks: seq<seq<byte>>, ghost payloads: seq<seq<byte>>)
      requires Valid() && Pending() == []
      requires (forall p | p in payloads :: 1 <= |p| <= MAX_PAYLOAD) && Joined(chunks) == FramedAll(payloads)
      modifies this, payloadBuffer
      ensures Valid() && Pending() == [] && handled == old(handled) + payloads
    {
      hide Parse, Joined, FramedAll;
      FramingRoundTrip(payloads);
      assert [] + Joined(chunks) == Joined(chunks);
      ReceiveAll(chunks);
    }

    lemma PendingIsPartial()
      requires Valid()
      ensures Parse(Pending()) == Parsed([], Pending())
    {
      if frameState == AwaitingPayload {
        assert LengthOf(Pending()[0], Pending()[1]) == frameLength;
      }
    }
  }
}
