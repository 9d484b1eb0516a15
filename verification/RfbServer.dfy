/** One session of the RFB server (app_vnc_server.c), after the handshake: handling client messages, and
    streaming Raw updates while input is drained between chunks. */
module RfbServer {
  import opened Common
  import opened Rectangles
  import opened Capture
  import opened PixelFormat
  import opened RawUpdate
  import opened ClientMessages
  import opened NetX
  import opened RfbStream
  import opened SessionLog

  const DRAIN_LIMIT := 16

  /** Stands for the message of a call that fails. */
  ghost const NOTHING := Parsed(KeyEvent([]), 0)

  lemma Restored(a: seq<int>, b: seq<int>, i: nat)
    requires i < |a| && b == a[i := a[i] + 1]
    ensures b[i := b[i] - 1] == a
  {
  }

  class Session {
    const net: Stack
    const stream: Stream
    const capture: FrameCapture
    /** vnc_tx_chunk: outgoing pixels, and the sink of skipped input. */
    const chunk: array<byte>

    // RFB_SESSION
    var format: Format
    var sentFirst: bool
    var pending: bool
    var pendingRequest: Request
    /** What App_GUIX_RemotePointerEvent was called with. */
    var pointers: seq<(nat, nat, byte)>

    /** Everything there is to read, the messages handled so far, and the bytes after the last of them. */
    ghost const input: seq<byte>
    /** How many calls had reported when the session began. */
    ghost const begin: nat
    ghost var log: seq<Message>
    ghost var unread: seq<byte>
    /** How many requests of `log` are no longer pending: answered, or overtaken by a later one that is. */
    ghost var cleared: nat
    /** What the wire held when input was last looked for, and the most that was ever sent without looking for it. */
    ghost var looked: nat
    ghost var longest: nat
    /** What the wire held at the start, and the replies sent since. */
    ghost const start: seq<byte>
    ghost var replies: seq<Reply>

    /** The input side: the log accounts for all bytes up to `unread`, and the fields follow the log. */
    ghost predicate InputValid()
      reads `format, `pending, `pendingRequest, `pointers, `log, `unread, `cleared, stream, net
    {
      && StreamReady()
      && AllAcceptable(log) && input == EncodeAll(log) + unread
      && format == FormatAfter(log)
      && pointers == PointersIn(log)
      && cleared <= |RequestsIn(log)|
      && (pending <==> cleared < |RequestsIn(log)|)
      && (pending ==> pendingRequest == RequestsIn(log)[|RequestsIn(log)| - 1])
    }

    /** No message is half read. */
    ghost predicate AtBoundary()
      reads this`unread, stream`rest
    {
      unread == stream.rest
    }

    ghost predicate Valid()
      reads `format, `pending, `pendingRequest, `pointers, `log, `unread, `cleared, stream, net,
            capture, capture.buffer, capture.readers
    {
      InputValid() && capture.Valid() && chunk as object != capture.readers
    }

    /** The output side, between messages: the wire holds exactly the replies, and every request is answered,
        overtaken by a newer one, or pending. */
    ghost predicate OutputValid()
      reads `sentFirst, `log, `cleared, `replies, net`wire
    {
      && Transcript(capture.screen, log, start, replies) && net.wire == EndOf(start, replies)
      && cleared == SettledBy(log, replies)
      && (sentFirst <==> AnyShows(capture.screen, log, replies))
    }

    /** Input is never left alone for more than a header and a chunk. */
    ghost predicate Prompt()
      reads `longest
    {
      longest <= 16 + chunk.Length
    }

    /** At most `n` bytes have been sent since input was looked for. */
    ghost predicate Attentive(n: nat)
      reads `looked, `longest, net`wire
    {
      Prompt() && |net.wire| <= looked + n
    }

    /** RFB_Session_Run's initial state, with the stream where the handshake left it. */
    constructor (stream: Stream, capture: FrameCapture, chunk: array<byte>)
      requires stream.Valid() && !stream.net.Fault()
      requires capture.Valid() && 4 <= chunk.Length && chunk as object != capture.readers
      ensures Valid() && AtBoundary() && OutputValid() && Attentive(0)
      ensures this.stream == stream && net == stream.net && this.capture == capture && this.chunk == chunk
      ensures input == stream.rest && begin == net.Position() && start == net.wire && log == [] && replies == []
    {
      hide InputValid, OutputValid, Stream.Valid, FrameCapture.Valid;
      this.net, this.stream, this.capture, this.chunk := stream.net, stream, capture, chunk;
      format, sentFirst, pending, pendingRequest, pointers := DEFAULT_FORMAT, false, false, Request(0, Rect(0, 0, 0, 0)), [];
      input, begin, start := stream.rest, stream.net.Position(), stream.net.wire;
      log, unread, cleared, replies := [], stream.rest, 0, [];
      looked, longest := |stream.net.wire|, 0;
      new;
      NothingHandled();
      NothingSent();
    }

    lemma NothingHandled()
      requires StreamReady() && input == unread
      requires log == [] && format == DEFAULT_FORMAT && pointers == [] && !pending && cleared == 0
      ensures InputValid()
    {
      hide StreamReady;
    }

    lemma NothingSent()
      requires log == [] && replies == [] && net.wire == start && !sentFirst && cleared == 0
      ensures OutputValid()
    {
    }

    // ---------------------------------------------------------------- client messages

    /** A message has been received completely and the fields changed as it says: record it. */
    ghost method Complete(p: Parsed)
      requires StreamReady() && AllAcceptable(log) && input == EncodeAll(log) + unread
      requires Parse(unread) == Some(p) && p.size <= |unread| && stream.rest == unread[p.size..]
      requires format == if p.message.SetPixelFormat? then p.message.format else FormatAfter(log)
      requires pointers == PointersIn(log) + PointersOf(p.message)
      requires cleared <= |RequestsIn(log)|
      requires p.message.UpdateRequest? ==> pending && pendingRequest == Request(p.message.incremental, p.message.rect)
      requires !p.message.UpdateRequest? ==>
                 && (pending <==> cleared < |RequestsIn(log)|)
                 && (pending ==> pendingRequest == RequestsIn(log)[|RequestsIn(log)| - 1])
      modifies this`log, this`unread
      ensures InputValid() && AtBoundary()
      ensures log == old(log) + [p.message] && |unread| < |old(unread)|
    {
      hide Parse, EncodeAll, AllAcceptable, RequestsIn, FormatAfter, PointersIn, PointersOf;
      LogGrows(log, unread, p);
      LogStep(log, p.message);
      log, unread := log + [p.message], unread[p.size..];
    }

    /** The type of the next message. */
    method ReceiveType() returns (status: Status, t: byte)
      requires stream.Valid() && AtBoundary() && stream.packet.Some?
      modifies stream, stream.net`inbox, stream.net`packets, stream.net`issued
      ensures stream.Valid()
      ensures |stream.net.inbox| <= |old(stream.net.inbox)|
      ensures status == Success ==> unread == [t] + stream.rest
      ensures status != Success ==> stream.net.Fault() || unread == []
    {
      var kind := new byte[1];
      status := stream.Receive(kind, 1);
      t := kind[0];
      assert kind[..1] == [t];
    }

    /** Why receiving `n` bytes behind the type of a message failed, when `before` was there to be received. */
    lemma BodyStopped(before: seq<byte>, from: nat, n: nat)
      requires StreamReady() && unread != [] && unread[1..] == before && begin <= from
      requires |before| < n || net.Fault() || (stream.GaveUpWaiting(before, from) && |before| - |stream.rest| < n)
      ensures Stopped(n + 1)
    {
      hide DataOf, StalledAt;
    }

    /** The `n` bytes after the type of a message, in a buffer of their own. */
    method ReceiveBody(n: nat) returns (status: Status, body: seq<byte>)
      requires StreamReady() && unread != [] && unread[1..] == stream.rest
      modifies stream, net`inbox, net`packets, net`issued
      ensures StreamReady()
      ensures |net.inbox| <= |old(net.inbox)|
      ensures status == Success ==> |body| == n && unread == [unread[0]] + body + stream.rest
      ensures status != Success ==> Stopped(n + 1)
    {
      hide DataOf, EmptyWaits, LinkHeld, Flowing, StalledAt, Stopped, Stream.GaveUpWaiting;
      var message := new byte[n];
      ghost var before, from := stream.rest, net.Position();
      status := stream.Receive(message, n);
      body := message[..];
      if status == Success {
        assert message[..n] == message[..];
        BehindType(unread, body, stream.rest);
      } else {
        BodyStopped(before, from, n);
      }
    }

    lemma BehindType(unread: seq<byte>, body: seq<byte>, rest: seq<byte>)
      requires unread != [] && unread[1..] == body + rest
      ensures unread == [unread[0]] + body + rest
    {
    }

    ghost predicate StreamReady()
      reads stream, net
    {
      stream.net == net && stream.Valid() && 4 <= chunk.Length
      && begin <= net.Position() && (net.Fault() ==> begin < net.Position())
    }

    /** What handling one message does: on success the session fields change as the message says and exactly its
        bytes are gone; otherwise no field changes, and the input was interrupted or does not start with an
        acceptable message. */
    twostate predicate Handled(status: Status, p: Parsed)
      reads this, stream, net
    {
      && StreamReady()
      && |net.inbox| <= |old(net.inbox)|
      && (status == Success ==>
            && Parse(unread) == Some(p) && p.size <= |unread| && stream.rest == unread[p.size..]
            && format == (if p.message.SetPixelFormat? then p.message.format else old(format))
            && pointers == old(pointers) + PointersOf(p.message)
            && (if p.message.UpdateRequest?
                then pending && pendingRequest == Request(p.message.incremental, p.message.rect)
                else pending == old(pending) && pendingRequest == old(pendingRequest)))
      && (status != Success ==>
            && format == old(format) && pointers == old(pointers)
            && pending == old(pending) && pendingRequest == old(pendingRequest)
            && Stuck())
    }

    /** The bytes of a message that have come in. */
    ghost function Begun(): int
      reads `unread, net`inbox
    {
      |unread| - |DataOf(net.inbox)|
    }

    /** Receiving the first `size` bytes of a message stopped early: by a fault, at the end of the input, or because
        the rest of a message already begun did not come. */
    ghost predicate Stopped(size: nat)
      reads `unread, net`inbox
    {
      net.Fault() || |unread| < size || (net.OutOfPatience(begin) && 0 < Begun() < size)
    }

    /** No further message can be handled. */
    ghost predicate Stuck()
      reads `unread, net`inbox
    {
      || Parse(unread).None? || net.Fault()
      || (net.OutOfPatience(begin) && 0 < Begun() < Parse(unread).value.size)
    }

    lemma StoppedIsStuck(size: nat)
      requires Stopped(size)
      requires Parse(unread).Some? ==> size <= Parse(unread).value.size <= |unread|
      ensures Stuck()
    {
    }

    /** RFB_Set_Pixel_Format: takes over every usable format. */
    method HandleSetPixelFormat() returns (status: Status, ghost p: Parsed)
      requires StreamReady() && unread != [] && unread[0] == 0 && unread[1..] == stream.rest
      modifies stream, net`inbox, net`packets, net`issued, chunk,
               this`format, this`pending, this`pendingRequest, this`pointers
      ensures Handled(status, p)
      ensures status == Success ==> |unread| >= 20 && format == BodyFormat(unread[1..20]) && Usable(format)
      ensures status != Success ==> Stopped(20) || !Usable(BodyFormat(unread[1..20]))
    {
      hide Supported, Usable, DataOf, BodyFormat;
      p := NOTHING;
      var message;
      status, message := ReceiveBody(19);
      if status != Success {
        SizeAtLeast(unread);
        StoppedIsStuck(20);
        return;
      }
      var requested := BodyFormat(message);
      SupportedExactlyWhen(requested);
      assert unread[1..20] == message;
      ParseFormatBody(message, stream.rest);
      if !Supported(requested) {
        status := Failed;
        return;
      }
      format := requested;
      p := Parse(unread).value;
    }

    /** RFB_Fix_Colour_Map. */
    method HandleFixColourMap() returns (status: Status, ghost p: Parsed)
      requires StreamReady() && unread != [] && unread[0] == 1 && unread[1..] == stream.rest
      modifies stream, net`inbox, net`packets, net`issued, chunk,
               this`format, this`pending, this`pendingRequest, this`pointers
      ensures Handled(status, p)
    {
      hide DataOf, Parse, GetU16, EmptyWaits, LinkHeld, Flowing, Supported;
      p := NOTHING;
      var message;
      status, message := ReceiveBody(5);
      if status != Success {
        SizeAtLeast(unread);
        StoppedIsStuck(6);
        return;
      }
      var count := GetU16(message[3..5]);
      ParseColourMapBody(message, stream.rest);
      status := stream.Skip(chunk, count * 6);
      if status == Success {
        p := Parse(unread).value;
      } else {
        StoppedIsStuck(6 + count * 6);
      }
    }

    /** RFB_Set_Encodings. */
    method HandleSetEncodings() returns (status: Status, ghost p: Parsed)
      requires StreamReady() && unread != [] && unread[0] == 2 && unread[1..] == stream.rest
      modifies stream, net`inbox, net`packets, net`issued, chunk,
               this`format, this`pending, this`pendingRequest, this`pointers
      ensures Handled(status, p)
    {
      hide DataOf, Parse, GetU16, EmptyWaits, LinkHeld, Flowing, Supported;
      p := NOTHING;
      var message;
      status, message := ReceiveBody(3);
      if status != Success {
        SizeAtLeast(unread);
        StoppedIsStuck(4);
        return;
      }
      var count := GetU16(message[1..3]);
      ParseEncodingsBody(message, stream.rest);
      status := stream.Skip(chunk, count * 4);
      if status == Success {
        p := Parse(unread).value;
      } else {
        StoppedIsStuck(4 + count * 4);
      }
    }

    /** RFB_Framebuffer_Request: the request is only recorded. */
    method HandleUpdateRequest() returns (status: Status, ghost p: Parsed)
      requires StreamReady() && unread != [] && unread[0] == 3 && unread[1..] == stream.rest
      modifies stream, net`inbox, net`packets, net`issued, chunk,
               this`format, this`pending, this`pendingRequest, this`pointers
      ensures Handled(status, p)
    {
      p := NOTHING;
      var message;
      status, message := ReceiveBody(9);
      if status != Success {
        SizeAtLeast(unread);
        StoppedIsStuck(10);
        return;
      }
      ParseRequestBody(message, stream.rest);
      pendingRequest := Request(message[0], BodyRect(message));
      pending := true;
      p := Parse(unread).value;
    }

    /** A key event is skipped. */
    method HandleKeyEvent() returns (status: Status, ghost p: Parsed)
      requires StreamReady() && unread == [4] + stream.rest
      modifies stream, net`inbox, net`packets, net`issued, chunk,
               this`format, this`pending, this`pendingRequest, this`pointers
      ensures Handled(status, p)
    {
      p := NOTHING;
      ParseKeyBody(stream.rest);
      status := stream.Skip(chunk, 7);
      if status == Success {
        p := Parse(unread).value;
      } else {
        StoppedIsStuck(8);
      }
    }

    /** RFB_Pointer_Event. */
    method HandlePointerEvent() returns (status: Status, ghost p: Parsed)
      requires StreamReady() && unread != [] && unread[0] == 5 && unread[1..] == stream.rest
      modifies stream, net`inbox, net`packets, net`issued, chunk,
               this`format, this`pending, this`pendingRequest, this`pointers
      ensures Handled(status, p)
      ensures status == Success ==>
                && |unread| >= 6
                && pointers == old(pointers) + [(FromWire(unread[2..4], true), FromWire(unread[4..6], true), unread[1])]
      ensures status != Success ==> Stopped(6) && pointers == old(pointers)
    {
      hide DataOf, Parse, GetU16, FromWire;
      p := NOTHING;
      var message;
      status, message := ReceiveBody(5);
      if status != Success {
        SizeAtLeast(unread);
        StoppedIsStuck(6);
        return;
      }
      assert unread[1..6] == message && unread[2..4] == message[1..3] && unread[4..6] == message[3..5];
      GetU16IsBigEndian(message[1..3]);
      GetU16IsBigEndian(message[3..5]);
      ParsePointerBody(message, stream.rest);
      pointers := pointers + [(GetU16(message[1..3]), GetU16(message[3..5]), message[0])];
      p := Parse(unread).value;
    }

    /** RFB_Client_Cut_Text: longer texts than the cap are refused. */
    method HandleCutText() returns (status: Status, ghost p: Parsed)
      requires StreamReady() && unread != [] && unread[0] == 6 && unread[1..] == stream.rest
      modifies stream, net`inbox, net`packets, net`issued, chunk,
               this`format, this`pending, this`pendingRequest, this`pointers
      ensures Handled(status, p)
    {
      hide DataOf, Parse, GetU32, EmptyWaits, LinkHeld, Flowing;
      p := NOTHING;
      var message;
      status, message := ReceiveBody(7);
      if status != Success {
        SizeAtLeast(unread);
        StoppedIsStuck(8);
        return;
      }
      var length := GetU32(message[3..7]);
      ParseCutTextBody(message, stream.rest);
      if length > CUT_TEXT_MAX_LENGTH {
        status := Failed;
        return;
      }
      status := stream.Skip(chunk, length);
      if status == Success {
        p := Parse(unread).value;
      } else {
        StoppedIsStuck(8 + length);
      }
    }

    /** The switch on the type of a message. */
    method Dispatch(t: byte) returns (status: Status, ghost p: Parsed)
      requires StreamReady() && unread == [t] + stream.rest
      modifies stream, net`inbox, net`packets, net`issued, chunk,
               this`format, this`pending, this`pendingRequest, this`pointers
      ensures Handled(status, p)
    {
      assert unread[1..] == stream.rest;
      match t
      case 0 => status, p := HandleSetPixelFormat();
      case 1 => status, p := HandleFixColourMap();
      case 2 => status, p := HandleSetEncodings();
      case 3 => status, p := HandleUpdateRequest();
      case 4 => status, p := HandleKeyEvent();
      case 5 => status, p := HandlePointerEvent();
      case 6 => status, p := HandleCutText();
      case _ => status, p := Failed, NOTHING;
    }

    /** The rest of a message of type `t`, and its place in the log. */
    method FinishMessage(t: byte) returns (status: Status)
      requires InputValid() && unread == [t] + stream.rest
      modifies stream, net`inbox, net`packets, net`issued, chunk,
               this`format, this`pending, this`pendingRequest, this`pointers, this`log, this`unread
      ensures InputValid() && Progress(|old(net.inbox)|, |old(unread)|, old(net.wire))
      ensures status == Success ==> AtBoundary() && |unread| < |old(unread)| && |log| == |old(log)| + 1
      ensures status != Success ==> Stuck() && log == old(log)
    {
      hide Parse, EncodeAll, AllAcceptable, RequestsIn, FormatAfter, PointersIn, DataOf;
      ghost var p;
      status, p := Dispatch(t);
      if status == Success {
        Complete(p);
      }
    }

    /** RFB_Process_Client_Message: on success one message is recorded and exactly its bytes are gone. */
    method ProcessClientMessage() returns (status: Status)
      requires InputValid() && AtBoundary() && stream.packet.Some?
      modifies stream, net`inbox, net`packets, net`issued, chunk,
               this`format, this`pending, this`pendingRequest, this`pointers, this`log, this`unread
      ensures InputValid() && Progress(|old(net.inbox)|, |old(unread)|, old(net.wire))
      ensures status == Success ==> AtBoundary() && |unread| < |old(unread)| && |log| == |old(log)| + 1
      ensures status != Success ==> Stuck() && log == old(log)
    {
      var t;
      status, t := ReceiveType();
      if status == Success {
        status := FinishMessage(t);
      }
    }

    /** The input left is no more than it was, and nothing sent is taken back. */
    ghost predicate Progress(inboxLeft: nat, unreadLeft: nat, sent: seq<byte>)
      reads this`unread, net`inbox, net`wire
    {
      |net.inbox| <= inboxLeft && |unread| <= unreadLeft && sent <= net.wire
    }

    /** Looks for input: a packet may be left over, or one more has arrived. */
    method Poll() returns (status: Status)
      requires InputValid() && AtBoundary()
      modifies stream, net`inbox, net`packets, net`issued, this`looked
      ensures looked == |net.wire|
      ensures InputValid() && Progress(|old(net.inbox)|, |old(unread)|, old(net.wire))
      ensures status != Failed ==> AtBoundary()
      ensures status == Success <==> stream.packet.Some?
      ensures status == NoPacket ==> net.Position() == old(net.Position()) + 1 && net.arrivals[net.Position() - 1].Empty?
      ensures status == Failed ==> Stuck()
    {
      hide Parse, EncodeAll, AllAcceptable, RequestsIn, FormatAfter, PointersIn, DataOf;
      NothingParsed();
      looked := |net.wire|;
      status := stream.Fill();
    }

    /** All input that had arrived was handled, or as many messages as one drain takes. */
    ghost predicate Drained(handled: nat, inboxLeft: nat)
      reads this`log, stream, net`inbox
    {
      || |log| == handled + DRAIN_LIMIT
      || (stream.packet.None? && |net.inbox| < inboxLeft && net.Position() > 0 && net.arrivals[net.Position() - 1].Empty?
          && |log| <= handled + DRAIN_LIMIT)
    }

    /** RFB_Drain_Client_Messages: handles what has already arrived. Nothing is sent, and the capture module
        is not touched; a request is only recorded. */
    method DrainClientMessages() returns (status: Status)
      requires InputValid() && AtBoundary()
      modifies stream, net`inbox, net`packets, net`issued, chunk,
               this`format, this`pending, this`pendingRequest, this`pointers, this`log, this`unread, this`looked
      ensures looked == |net.wire|
      ensures InputValid() && Progress(|old(net.inbox)|, |old(unread)|, old(net.wire))
      ensures status == Success ==> AtBoundary()
      ensures status == Success ==> Drained(|old(log)|, |old(net.inbox)|)
      ensures status != Success ==> Stuck()
    {
      var count := 0;
      hide InputValid, Stuck;
      while count < DRAIN_LIMIT
        invariant InputValid() && AtBoundary() && Progress(|old(net.inbox)|, |old(unread)|, old(net.wire))
        invariant count > 0 ==> looked == |net.wire|
        invariant count <= DRAIN_LIMIT && |log| == |old(log)| + count
      {
        status := Poll();
        if status == NoPacket {
          return Success;
        }
        if status != Success {
          return;
        }
        status := ProcessClientMessage();
        if status != Success {
          return;
        }
        count := count + 1;
      }
      status := Success;
    }

    // ---------------------------------------------------------------- updates

    /** RFB_Send: in packets of at most the chunk size. */
    method SendAll(data: seq<byte>) returns (status: Status)
      requires StreamReady()
      modifies net`packets, net`issued, net`wire, net`sendFailed
      ensures StreamReady()
      ensures old(net.wire) <= net.wire
      ensures status == Success ==> net.wire == old(net.wire) + data
      ensures status != Success ==> net.sendFailed && net.wire <= old(net.wire) + data
    {
      var left := data;
      ghost var all := net.wire + data;
      assert net.wire + left == all;
      while left != []
        invariant StreamReady() && net.wire + left == all && old(net.wire) <= net.wire
        decreases |left|
      {
        var part := if |left| > chunk.Length then chunk.Length else |left|;
        Reassociate(net.wire, left, part);
        status := SendPart(left[..part]);
        if status != Success {
          return;
        }
        left := left[part..];
      }
      assert net.wire + [] == net.wire;
      status := Success;
    }

    method Send(data: seq<byte>) returns (status: Status)
      requires Valid() && AtBoundary() && Prompt() && |net.wire| + |data| <= looked + 16 + chunk.Length
      modifies net`packets, net`issued, net`wire, net`sendFailed, this`longest
      ensures Prompt() && old(longest) <= longest && |net.wire| <= looked + longest
      ensures Valid() && AtBoundary() && Progress(|old(net.inbox)|, |old(unread)|, old(net.wire))
      ensures status == Success ==> net.wire == old(net.wire) + data
      ensures status != Success ==> net.sendFailed && net.wire <= old(net.wire) + data
    {
      status := SendAll(data);
      if |net.wire| > looked + longest {
        longest := |net.wire| - looked;
      }
    }

    method SendPart(part: seq<byte>) returns (status: Status)
      requires StreamReady() && |part| <= chunk.Length
      modifies net`packets, net`issued, net`wire, net`sendFailed
      ensures StreamReady()
      ensures status == Success ==> net.wire == old(net.wire) + part
      ensures status != Success ==> net.wire == old(net.wire) && net.sendFailed
    {
      status := net.SendPacket(part);
    }

    /** What has been sent and what waits in the chunk. */
    ghost function Output(used: nat): seq<byte>
      requires used <= chunk.Length
      reads this, net, chunk
    {
      net.wire + chunk[..used]
    }

    /** RFB_Append_Pixel at the end of the `used` bytes of the chunk. */
    method AppendPixel(used: nat, pixel: Pixel, f: Format) returns (now: nat)
      requires used + f.Bytes() <= chunk.Length
      modifies chunk
      ensures now == used + f.Bytes()
      ensures Output(now) == old(Output(used)) + PixelBytes(pixel, f)
    {
      var v := Convert(pixel, f);
      var index := 0;
      while index < f.Bytes()
        invariant index <= f.Bytes()
        invariant forall k :: 0 <= k < used ==> chunk[k] == old(chunk[k])
        invariant forall k :: used <= k < used + index ==> chunk[k] == WireByte(v, f.Bytes(), f.bigEndian, k - used)
      {
        chunk[used + index] := WireByte(v, f.Bytes(), f.bigEndian, index);
        index := index + 1;
      }
      now := used + index;
      assert chunk[..now] == old(chunk[..used]) + PixelBytes(pixel, f);
    }

    /** A full chunk goes out; then the GUI may have published, and waiting input is drained. */
    method FlushChunk(used: nat) returns (status: Status)
      requires Valid() && AtBoundary() && used <= chunk.Length && Attentive(16)
      modifies stream, net`inbox, net`packets, net`issued, chunk,
               this`format, this`pending, this`pendingRequest, this`pointers, this`log, this`unread, this`looked, this`longest,
               net`wire, net`sendFailed, capture, capture.buffer
      ensures Valid() && Progress(|old(net.inbox)|, |old(unread)|, old(net.wire))
      ensures Prompt() && (status == Success ==> Attentive(0) && Drained(|old(log)|, |old(net.inbox)|))
      ensures capture.Kept(old(capture.Damage()), old(capture.ready))
      ensures status == Success ==>
                AtBoundary() && net.wire == old(net.wire) + old(chunk[..used])
      ensures status != Success ==> (Stuck() || net.sendFailed) && net.wire <= old(net.wire) + old(chunk[..used])
      ensures forall i :: 0 <= i < capture.count && capture.readers[i] != 0 ==> capture.FrameAt(i) == old(capture.FrameAt(i))
    {
      hide InputValid, Stuck;
      status := Send(chunk[..used]);
      if status != Success {
        return;
      }
      var rounds: nat := *;
      capture.PublishAnything(rounds);
      status := DrainClientMessages();
    }

    /** Makes room for one more pixel; a chunk without it goes out first. */
    method MakeRoom(used: nat, f: Format) returns (status: Status, now: nat)
      requires Valid() && AtBoundary() && used <= chunk.Length && f.Bytes() <= 4 && Attentive(16)
      modifies stream, net`inbox, net`packets, net`issued, chunk,
               this`format, this`pending, this`pendingRequest, this`pointers, this`log, this`unread, this`looked, this`longest,
               net`wire, net`sendFailed, capture, capture.buffer
      ensures Valid() && Progress(|old(net.inbox)|, |old(unread)|, old(net.wire))
      ensures Prompt() && (status == Success ==> Attentive(16))
      ensures status == Success && used + f.Bytes() > chunk.Length ==> Drained(|old(log)|, |old(net.inbox)|)
      ensures capture.Kept(old(capture.Damage()), old(capture.ready))
      ensures status == Success ==>
                && AtBoundary()
                && now + f.Bytes() <= chunk.Length && Output(now) == old(Output(used))
      ensures status != Success ==> (Stuck() || net.sendFailed) && net.wire <= old(Output(used))
      ensures forall i :: 0 <= i < capture.count && capture.readers[i] != 0 ==> capture.FrameAt(i) == old(capture.FrameAt(i))
    {
      if used + f.Bytes() > chunk.Length {
        status := FlushChunk(used);
        now := 0;
        assert chunk[..0] == [];
      } else {
        status := Success;
        now := used;
      }
    }

    /** One pixel of the held snapshot joins the output. */
    method SendPixel(index: nat, at: nat, f: Format, used: nat) returns (status: Status, now: nat)
      requires Valid() && AtBoundary() && used <= chunk.Length && f.Bytes() <= 4 && Attentive(16)
      requires index < capture.count && capture.readers[index] != 0 && at < capture.screen.Pixels()
      modifies stream, net`inbox, net`packets, net`issued, chunk,
               this`format, this`pending, this`pendingRequest, this`pointers, this`log, this`unread, this`looked, this`longest,
               net`wire, net`sendFailed, capture, capture.buffer
      ensures Valid() && Progress(|old(net.inbox)|, |old(unread)|, old(net.wire))
      ensures Prompt() && (status == Success ==> Attentive(16))
      ensures capture.Kept(old(capture.Damage()), old(capture.ready))
      ensures capture.FrameAt(index) == old(capture.FrameAt(index))
      ensures status == Success ==>
                AtBoundary() && now <= chunk.Length
                && Output(now) == old(Output(used)) + PixelBytes(old(capture.FrameAt(index)[at]), f)
      ensures status != Success ==> (Stuck() || net.sendFailed) && net.wire <= old(Output(used))
    {
      hide InputValid, Stuck, Prompt, FrameCapture.Kept;
      status, now := MakeRoom(used, f);
      if status == Success {
        now := AppendPixel(now, capture.buffer[index, at], f);
      }
    }

    /** One row of RFB_Send_Raw_Pixels, after `done` pixels in earlier rows; `before` is what was on the wire when
        the rectangle began. */
    method SendRow(index: nat, r: Rect, f: Format, dy: nat, used: nat, ghost before: seq<byte>, ghost frame: Frame, ghost done: nat)
      returns (status: Status, now: nat)
      requires Valid() && AtBoundary() && used <= chunk.Length && f.Bytes() <= 4 && Attentive(16)
      requires index < capture.count && capture.readers[index] != 0 && frame == capture.FrameAt(index)
      requires r.OnScreen(capture.screen) && dy < r.height && done == RowStart(r, dy)
      requires Continues(Output(used), before, frame, r, f, done)
      modifies stream, net`inbox, net`packets, net`issued, chunk,
               this`format, this`pending, this`pendingRequest, this`pointers, this`log, this`unread, this`looked, this`longest,
               net`wire, net`sendFailed, capture, capture.buffer
      ensures Valid() && Progress(|old(net.inbox)|, |old(unread)|, old(net.wire))
      ensures Prompt() && (status == Success ==> Attentive(16))
      ensures capture.Kept(old(capture.Damage()), old(capture.ready)) && capture.FrameAt(index) == frame
      ensures status == Success ==>
                && AtBoundary() && now <= chunk.Length
                && Continues(Output(now), before, frame, r, f, done + r.width)
      ensures status != Success ==>
                (Stuck() || net.sendFailed) && net.wire <= before + RawRectangle(capture.screen, frame, r, f)
    {
      hide InputValid, Stuck, Prompt, Continues, RawRectangle;
      var source := RowSource(capture.screen, r, dy);
      now := used;
      var x := 0;
      while x < r.width
        invariant Valid() && AtBoundary() && Progress(|old(net.inbox)|, |old(unread)|, old(net.wire))
        invariant Attentive(16)
        invariant capture.Kept(old(capture.Damage()), old(capture.ready))
        invariant x <= r.width && now <= chunk.Length && capture.FrameAt(index) == frame
        invariant Continues(Output(now), before, frame, r, f, done + x)
      {
        ContinuesWithin(Output(now), before, frame, r, f, done + x);
        ContinuesStep(Output(now), before, frame, r, f, x, dy, done + x, source + x);
        status, now := SendPixel(index, source + x, f, now);
        if status != Success {
          return;
        }
        x := x + 1;
      }
      status := Success;
    }

    lemma ContinuesWithin(output: seq<byte>, before: seq<byte>, frame: Frame, r: Rect, f: Format, n: nat)
      requires Continues(output, before, frame, r, f, n)
      ensures output <= before + RawRectangle(capture.screen, frame, r, f)
    {
      RawPixelsGrow(capture.screen, frame, r, f, n, r.width * r.height);
    }

    lemma ContinuesStep(output: seq<byte>, before: seq<byte>, frame: Frame, r: Rect, f: Format, dx: nat, dy: nat, k: nat, at: nat)
      requires Continues(output, before, frame, r, f, k) && dx < r.width && dy < r.height
      requires k == RowStart(r, dy) + dx && at == RowSource(capture.screen, r, dy) + dx
      ensures at < |frame| && Continues(output + PixelBytes(frame[at], f), before, frame, r, f, k + 1)
    {
      RawPixelsStep(capture.screen, frame, r, f, dx, dy, k, at);
    }

    /** `output` is `before` followed by the first `n` pixels of the rectangle. */
    ghost predicate Continues(output: seq<byte>, before: seq<byte>, frame: Frame, r: Rect, f: Format, n: nat) {
      && r.OnScreen(capture.screen) && |frame| == capture.screen.Pixels() && n <= r.width * r.height
      && output == before + RawPixels(capture.screen, frame, r, f, n)
    }

    /** The loop over the rows; the last, partly filled chunk is left. */
    method SendRows(index: nat, r: Rect, f: Format) returns (status: Status, used: nat)
      requires Valid() && AtBoundary() && f.Bytes() <= 4 && Attentive(16)
      requires index < capture.count && capture.readers[index] != 0 && r.OnScreen(capture.screen)
      modifies stream, net`inbox, net`packets, net`issued, chunk,
               this`format, this`pending, this`pendingRequest, this`pointers, this`log, this`unread, this`looked, this`longest,
               net`wire, net`sendFailed, capture, capture.buffer
      ensures Valid() && Progress(|old(net.inbox)|, |old(unread)|, old(net.wire))
      ensures Prompt() && (status == Success ==> Attentive(16))
      ensures capture.Kept(old(capture.Damage()), old(capture.ready))
      ensures status == Success ==>
                && AtBoundary() && used <= chunk.Length
                && Output(used) == old(net.wire) + RawRectangle(capture.screen, old(capture.FrameAt(index)), r, f)
      ensures status != Success ==>
                && (Stuck() || net.sendFailed)
                && net.wire <= old(net.wire) + RawRectangle(capture.screen, old(capture.FrameAt(index)), r, f)
    {
      hide InputValid, Stuck;
      ghost var frame, before := capture.FrameAt(index), net.wire;
      ghost var done := 0;
      used := 0;
      var dy := 0;
      while dy < r.height
        invariant Valid() && AtBoundary() && Progress(|old(net.inbox)|, |old(unread)|, old(net.wire))
        invariant Attentive(16)
        invariant capture.Kept(old(capture.Damage()), old(capture.ready))
        invariant dy <= r.height && used <= chunk.Length && capture.FrameAt(index) == frame
        invariant done == RowStart(r, dy)
        invariant Continues(Output(used), before, frame, r, f, done)
      {
        status, used := SendRow(index, r, f, dy, used, before, frame, done);
        if status != Success {
          return;
        }
        RowFits(r, dy);
        dy, done := dy + 1, done + r.width;
      }
      AllRows(r);
      status := Success;
    }

    /** The last chunk goes out, and waiting input is drained once more. */
    method FinishPixels(used: nat) returns (status: Status)
      requires Valid() && AtBoundary() && used <= chunk.Length && Attentive(16)
      modifies stream, net`inbox, net`packets, net`issued, chunk,
               this`format, this`pending, this`pendingRequest, this`pointers, this`log, this`unread, this`looked, this`longest,
               net`wire, net`sendFailed
      ensures Valid() && Progress(|old(net.inbox)|, |old(unread)|, old(net.wire))
      ensures Prompt() && (status == Success ==> Attentive(0) && Drained(|old(log)|, |old(net.inbox)|))
      ensures status == Success ==> AtBoundary() && net.wire == old(Output(used))
      ensures status != Success ==> (Stuck() || net.sendFailed) && net.wire <= old(Output(used))
    {
      hide InputValid, Stuck;
      if used != 0 {
        status := Send(chunk[..used]);
        if status != Success {
          return;
        }
      }
      status := DrainClientMessages();
    }

    /** RFB_Send_Raw_Pixels. */
    method SendRawPixels(index: nat, r: Rect, f: Format) returns (status: Status)
      requires Valid() && AtBoundary() && f.Bytes() <= 4 && Attentive(16)
      requires index < capture.count && capture.readers[index] != 0 && r.OnScreen(capture.screen)
      modifies stream, net`inbox, net`packets, net`issued, chunk,
               this`format, this`pending, this`pendingRequest, this`pointers, this`log, this`unread, this`looked, this`longest,
               net`wire, net`sendFailed, capture, capture.buffer
      ensures Valid() && Progress(|old(net.inbox)|, |old(unread)|, old(net.wire))
      ensures Prompt() && (status == Success ==> Attentive(0))
      ensures capture.Kept(old(capture.Damage()), old(capture.ready))
      ensures status == Success ==>
                && AtBoundary()
                && net.wire == old(net.wire) + RawRectangle(capture.screen, old(capture.FrameAt(index)), r, f)
      ensures status != Success ==>
                && (Stuck() || net.sendFailed)
                && net.wire <= old(net.wire) + RawRectangle(capture.screen, old(capture.FrameAt(index)), r, f)
    {
      hide InputValid, Stuck;
      var used;
      status, used := SendRows(index, r, f);
      if status == Success {
        var rounds: nat := *;
        capture.PublishAnything(rounds);
        status := FinishPixels(used);
      }
    }

    /** The header and the pixels of an update of `u`. */
    method SendUpdate(index: nat, u: Rect, f: Format) returns (status: Status)
      requires Valid() && AtBoundary() && f.Bytes() <= 4 && Attentive(0)
      requires index < capture.count && capture.readers[index] != 0 && u.OnScreen(capture.screen) && u.Valid()
      modifies stream, net`inbox, net`packets, net`issued, chunk,
               this`format, this`pending, this`pendingRequest, this`pointers, this`log, this`unread, this`looked, this`longest,
               net`wire, net`sendFailed, capture, capture.buffer
      ensures Valid() && Progress(|old(net.inbox)|, |old(unread)|, old(net.wire))
      ensures Prompt() && (status == Success ==> Attentive(0))
      ensures capture.Kept(old(capture.Damage()), old(capture.ready))
      ensures status == Success ==>
                && AtBoundary()
                && net.wire == old(net.wire) + UpdateHeader(u) + RawRectangle(capture.screen, old(capture.FrameAt(index)), u, f)
      ensures status != Success ==>
                && (Stuck() || net.sendFailed)
                && net.wire <= old(net.wire) + UpdateHeader(u) + RawRectangle(capture.screen, old(capture.FrameAt(index)), u, f)
    {
      hide InputValid, Stuck, UpdateHeader, RawRectangle;
      status := Send(UpdateHeader(u));
      if status == Success {
        status := SendRawPixels(index, u, f);
      }
    }

    lemma FormatFits()
      requires InputValid()
      ensures Supported(format) && 1 <= format.Bytes() <= 4
    {
      FormatAfterIsSupported(log);
    }

    /** The update that a view and a request call for. */
    method SendUpdateOf(view: View, r: Rect, onlyDamage: bool, u: Rect, f: Format) returns (status: Status)
      requires Valid() && AtBoundary() && f.Bytes() <= 4 && Attentive(0)
      requires view.index < capture.count && capture.readers[view.index] != 0 && u.OnScreen(capture.screen) && u.Valid()
      requires UpdateRect(r, onlyDamage, view.damage) == Some(u)
      modifies stream, net`inbox, net`packets, net`issued, chunk,
               this`format, this`pending, this`pendingRequest, this`pointers, this`log, this`unread, this`looked, this`longest,
               net`wire, net`sendFailed, capture, capture.buffer
      ensures Valid() && Progress(|old(net.inbox)|, |old(unread)|, old(net.wire))
      ensures Prompt() && (status == Success ==> Attentive(0))
      ensures capture.Kept(old(capture.Damage()), old(capture.ready))
      ensures status == Success ==>
                && AtBoundary()
                && IsUpdate(capture.screen, old(net.wire), net.wire, r, onlyDamage, f, view.damage,
                            old(capture.FrameAt(view.index)))
      ensures status != Success ==>
                && (Stuck() || net.sendFailed)
                && BeginsUpdate(capture.screen, old(net.wire), net.wire, r, onlyDamage, f, view.damage,
                                old(capture.FrameAt(view.index)))
    {
      hide InputValid, Stuck, UpdateRect, UpdateHeader, RawRectangle, IsUpdate, BeginsUpdate, Prompt;
      ghost var before, frame := net.wire, capture.FrameAt(view.index);
      status := SendUpdate(view.index, u, f);
      if status == Success {
        UpdateMade(capture.screen, before, net.wire, r, onlyDamage, f, view.damage, frame, u);
      } else {
        UpdateBegun(capture.screen, before, net.wire, r, onlyDamage, f, view.damage, frame, u);
      }
    }

    /** Sends it; when it is sent and covers the damage of the view, the damage is acknowledged. */
    method SendAndAcknowledge(view: View, r: Rect, onlyDamage: bool, u: Rect, f: Format) returns (status: Status)
      requires Valid() && AtBoundary() && f.Bytes() <= 4 && Attentive(0)
      requires view.index < capture.count && capture.readers[view.index] != 0 && u.OnScreen(capture.screen) && u.Valid()
      requires UpdateRect(r, onlyDamage, view.damage) == Some(u)
      modifies stream, net`inbox, net`packets, net`issued, chunk,
               this`format, this`pending, this`pendingRequest, this`pointers, this`log, this`unread, this`looked, this`longest,
               net`wire, net`sendFailed, capture, capture.buffer
      ensures Valid() && Progress(|old(net.inbox)|, |old(unread)|, old(net.wire))
      ensures Prompt() && (status == Success ==> Attentive(0))
      ensures old(capture.ready) ==> capture.ready
      ensures status == Success && CoversDirty(r, view.damage) && capture.ready && capture.generation == view.generation ==>
                !capture.dirtyValid
      ensures !(status == Success && CoversDirty(r, view.damage) && capture.ready && capture.generation == view.generation) ==>
                capture.Kept(old(capture.Damage()), old(capture.ready))
      ensures status == Success ==>
                && AtBoundary()
                && IsUpdate(capture.screen, old(net.wire), net.wire, r, onlyDamage, f, view.damage,
                            old(capture.FrameAt(view.index)))
      ensures status != Success ==>
                && (Stuck() || net.sendFailed)
                && BeginsUpdate(capture.screen, old(net.wire), net.wire, r, onlyDamage, f, view.damage,
                                old(capture.FrameAt(view.index)))
    {
      hide InputValid, Stuck, UpdateRect, CoversDirty, IsUpdate, BeginsUpdate, Prompt;
      var covers := CoversDirty(r, view.damage);
      status := SendUpdateOf(view, r, onlyDamage, u, f);
      if status == Success {
        AcknowledgeIf(covers, view.generation, old(capture.Damage()), old(capture.ready));
      }
    }

    /** The part of RFB_Send_Framebuffer_Update between Acquire and Release. The format is the one at its start. */
    method UpdateFromView(view: View, r: Rect, incremental: bool) returns (status: Status, sent: bool)
      requires Valid() && AtBoundary() && r.OnScreen(capture.screen) && Attentive(0)
      requires view.index < capture.count && capture.readers[view.index] != 0
      requires view.damage.Some? ==> view.damage.value.OnScreen(capture.screen)
      modifies stream, net`inbox, net`packets, net`issued, chunk,
               this`format, this`pending, this`pendingRequest, this`pointers, this`log, this`unread, this`looked, this`longest,
               net`wire, net`sendFailed, capture, capture.buffer, this`sentFirst
      ensures Valid() && Progress(|old(net.inbox)|, |old(unread)|, old(net.wire))
      ensures status != Success ==>
                && !sent && (Stuck() || net.sendFailed)
                && UpdateRect(r, incremental && old(sentFirst), view.damage).Some?
                && BeginsUpdate(capture.screen, old(net.wire), net.wire, r, incremental && old(sentFirst), old(format),
                                view.damage, old(capture.FrameAt(view.index)))
      ensures status == Success ==> AtBoundary()
      ensures Prompt() && (status == Success ==> Attentive(0))
      ensures old(capture.ready) ==> capture.ready
      ensures sentFirst == (old(sentFirst) || sent)
      ensures var acknowledges := sent && CoversDirty(r, view.damage) && capture.ready && capture.generation == view.generation;
        if acknowledges then !capture.dirtyValid else capture.Kept(old(capture.Damage()), old(capture.ready))
      ensures sent <==> status == Success && UpdateRect(r, incremental && old(sentFirst), view.damage).Some?
      ensures status == Success && !sent ==>
                && net.wire == old(net.wire) && net.inbox == old(net.inbox) && log == old(log)
                && pending == old(pending) && pendingRequest == old(pendingRequest)
      ensures sent ==>
                IsUpdate(capture.screen, old(net.wire), net.wire, r, incremental && old(sentFirst), old(format),
                         view.damage, old(capture.FrameAt(view.index)))
    {
      hide InputValid, Stuck, UpdateRect, CoversDirty, Supported, IsUpdate, BeginsUpdate, Prompt, FrameCapture.Kept;
      FormatFits();
      UpdateRectOnScreen(capture.screen, r, incremental && sentFirst, view.damage);
      var update := UpdateRect(r, incremental && sentFirst, view.damage);
      sent := false;
      if update.None? {
        capture.Unchanged();
        return Success, false;
      }
      status := SendAndAcknowledge(view, r, incremental && sentFirst, update.value, format);
      if status == Success {
        sent := true;
        sentFirst := true;
      }
    }

    method AcknowledgeIf(covers: bool, generation: nat, ghost damage: Option<Box>, ghost wasReady: bool)
      requires Valid() && capture.Kept(damage, wasReady)
      modifies capture
      ensures Valid()
      ensures capture.generation == old(capture.generation) && capture.ready == old(capture.ready)
      ensures if covers && capture.ready && capture.generation == generation then !capture.dirtyValid
              else capture.Kept(damage, wasReady)
    {
      hide InputValid;
      if covers {
        capture.Acknowledge(generation);
      }
    }

    /** Something is published, and its reader count can still grow. */
    ghost predicate CanBeViewed()
      reads capture, capture.readers
    {
      && capture.ready && capture.publishedIndex < capture.readers.Length
      && capture.readers[capture.publishedIndex] != MAX_READERS
    }

    /** There is something to answer to a request: it is off the screen, or what is published has pixels for it. */
    ghost predicate Due(request: Request)
      reads `sentFirst, capture, capture.readers
    {
      match Clip(capture.screen, request.rect)
      case None => true
      case Some(r) => CanBeViewed() && UpdateRect(r, request.incremental != 0 && sentFirst, capture.Damage()).Some?
    }

    /** App_VNC_Frame_Acquire. */
    method AcquireView() returns (view: Option<View>)
      requires Valid() && AtBoundary()
      modifies capture.readers
      ensures Valid() && AtBoundary()
      ensures view.Some? <==> old(CanBeViewed())
      ensures view.None? ==> capture.readers[..] == old(capture.readers[..])
      ensures view.Some? ==>
                && view.value == ViewOf(old(capture.Contents()))
                && view.value.index < capture.count && capture.readers[view.value.index] != 0
                && (view.value.damage.Some? ==> view.value.damage.value.OnScreen(capture.screen))
                && capture.FrameAt(view.value.index) == old(capture.Contents()).buffers[view.value.index]
                && capture.readers[..] == old(capture.readers[..])[view.value.index := old(capture.readers[view.value.index]) + 1]
    {
      view := capture.Acquire();
    }

    /** The answer to a request of which `r` is on the screen, from what is published when the view is acquired.
        The view is released again in every case. */
    method AnswerFromView(r: Rect, incremental: bool) returns (status: Status, sent: bool, ghost seen: State)
      requires Valid() && AtBoundary() && r.OnScreen(capture.screen) && Attentive(0)
      modifies stream, net`inbox, net`packets, net`issued, chunk,
               this`format, this`pending, this`pendingRequest, this`pointers, this`log, this`unread, this`looked, this`longest,
               net`wire, net`sendFailed, capture, capture.buffer,
               this`sentFirst, capture.readers
      ensures Valid() && Progress(|old(net.inbox)|, |old(unread)|, old(net.wire))
      ensures Prompt() && (status == Success ==> Attentive(0))
      ensures capture.readers[..] == old(capture.readers[..]) && (old(capture.ready) ==> capture.ready)
      ensures status != Success ==>
                && !sent && (Stuck() || net.sendFailed)
                && old(CanBeViewed()) && UpdateRect(r, incremental && old(sentFirst), old(capture.Damage())).Some?
                && seen.published < |seen.buffers|
                && BeginsUpdate(capture.screen, old(net.wire), net.wire, r, incremental && old(sentFirst), old(format),
                                seen.damage, seen.buffers[seen.published])
      ensures status == Success ==> AtBoundary()
      ensures status == Success && !sent ==>
                && net.wire == old(net.wire) && net.inbox == old(net.inbox) && log == old(log)
                && pending == old(pending) && pendingRequest == old(pendingRequest)
      ensures sentFirst == (old(sentFirst) || sent)
      ensures seen == old(capture.Contents())
      ensures sent <==> status == Success && old(CanBeViewed())
                        && UpdateRect(r, incremental && old(sentFirst), old(capture.Damage())).Some?
      ensures sent ==>
                && seen.published < |seen.buffers|
                && IsUpdate(capture.screen, old(net.wire), net.wire, r, incremental && old(sentFirst), old(format),
                            seen.damage, seen.buffers[seen.published])
    {
      hide InputValid, Stuck, IsUpdate, BeginsUpdate, UpdateRect, CanBeViewed;
      seen := capture.Contents();
      var view := AcquireView();
      if view.None? {
        return Success, false, seen;
      }
      var index := view.value.index;
      ghost var held := capture.readers[..];
      status, sent := UpdateFromView(view.value, r, incremental);
      assert capture.readers[..] == held;
      capture.Release(index);
      Restored(old(capture.readers[..]), held, index);
    }

    /** RFB_Send_Framebuffer_Update. */
    method SendFramebufferUpdate(request: Request) returns (status: Status, sent: bool, ghost seen: State)
      requires Valid() && AtBoundary() && Attentive(0)
      modifies stream, net`inbox, net`packets, net`issued, chunk,
               this`format, this`pending, this`pendingRequest, this`pointers, this`log, this`unread, this`looked, this`longest,
               net`wire, net`sendFailed, capture, capture.buffer,
               this`sentFirst, capture.readers
      ensures Valid() && Progress(|old(net.inbox)|, |old(unread)|, old(net.wire))
      ensures Prompt() && (status == Success ==> Attentive(4))
      ensures capture.readers[..] == old(capture.readers[..]) && (old(capture.ready) ==> capture.ready)
      ensures status != Success ==>
                && !sent && (Stuck() || net.sendFailed) && old(Due(request))
                && BeginsAnswer(capture.screen, old(net.wire), net.wire, request, request.incremental != 0 && old(sentFirst),
                                old(format), old(capture.Contents()))
      ensures status == Success ==> AtBoundary()
      ensures status == Success && !sent ==>
                && net.wire == old(net.wire) && net.inbox == old(net.inbox) && log == old(log)
                && pending == old(pending) && pendingRequest == old(pendingRequest)
      ensures sentFirst == (old(sentFirst) || (sent && Clip(capture.screen, request.rect).Some?))
      ensures seen == old(capture.Contents())
      ensures sent <==> status == Success && old(Due(request))
      ensures sent ==>
                IsAnswer(capture.screen, old(net.wire), net.wire, request, request.incremental != 0 && old(sentFirst),
                         old(format), seen)
    {
      hide InputValid, Stuck, IsUpdate, BeginsUpdate, BeginsAnswer, UpdateRect, CanBeViewed;
      seen := capture.Contents();
      var clipped := Clip(capture.screen, request.rect);
      if clipped.None? {
        status := Send(EMPTY_UPDATE);
        sent := status == Success;
        if !sent {
          EmptyBegun(capture.screen, old(net.wire), net.wire, request, request.incremental != 0 && old(sentFirst), old(format), seen);
        }
      } else {
        ClipIsIntersection(capture.screen, request.rect);
        status, sent, seen := AnswerFromView(clipped.value, request.incremental != 0);
        if status != Success {
          AnswerBegun(capture.screen, old(net.wire), net.wire, request, request.incremental != 0 && old(sentFirst), old(format), seen);
        }
      }
    }

    /** The pending request is about to be served: it is the last one received. */
    method TakePending() returns (request: Request)
      requires Valid() && AtBoundary() && pending
      modifies this`pending, this`cleared
      ensures Valid() && AtBoundary() && !pending
      ensures request == pendingRequest && old(cleared) < cleared == |RequestsIn(log)|
      ensures request == RequestsIn(log)[cleared - 1]
    {
      hide Parse, EncodeAll, AllAcceptable, RequestsIn, FormatAfter, PointersIn;
      request := pendingRequest;
      pending := false;
      cleared := |RequestsIn(log)|;
    }

    /** Nothing was sent for it and no other request came: it is pending again. */
    method PutBack(request: Request, ghost before: nat)
      requires Valid() && AtBoundary() && !pending
      requires before < cleared == |RequestsIn(log)| && request == RequestsIn(log)[cleared - 1]
      modifies this`pending, this`pendingRequest, this`cleared
      ensures Valid() && AtBoundary() && pending && pendingRequest == request && cleared == before
    {
      hide Parse, EncodeAll, AllAcceptable, RequestsIn, FormatAfter, PointersIn;
      pendingRequest := request;
      pending := true;
      cleared := before;
    }

    lemma ClearedAreReceived()
      requires InputValid()
      ensures AllAcceptable(log) && input == EncodeAll(log) + unread
      ensures cleared <= |RequestsIn(log)| && format == FormatAfter(log)
    {
    }

    /** What has been handled stays handled. */
    twostate lemma LogContinues()
      requires old(InputValid()) && InputValid() && |unread| <= |old(unread)|
      ensures old(log) <= log
    {
      SplitsAreNested(log, unread, old(log), old(unread));
    }

    /** One more reply, to the last request of the first `handled` messages. */
    ghost method Record(handled: nat, request: Request, onlyDamage: bool, seen: State, before: seq<byte>)
      requires Transcript(capture.screen, log, start, replies) && before == EndOf(start, replies)
      requires handled <= |log| && SettledBy(log, replies) < cleared == |RequestsIn(log[..handled])|
      requires request == RequestsIn(log[..handled])[cleared - 1]
      requires IsAnswer(capture.screen, before, net.wire, request, onlyDamage, FormatAfter(log[..handled]), seen)
      requires onlyDamage <==> request.incremental != 0 && AnyShows(capture.screen, log, replies)
      requires sentFirst <==> AnyShows(capture.screen, log, replies) || Clip(capture.screen, request.rect).Some?
      modifies this`replies
      ensures OutputValid() && replies == old(replies) + [Reply(handled, onlyDamage, seen, before, net.wire)]
    {
      hide IsAnswer, Transcript, AnyShows, RequestsIn, FormatAfter, Clip;
      ghost var r := Reply(handled, onlyDamage, seen, before, net.wire);
      TranscriptExtends(capture.screen, log, start, replies, r);
      replies := replies + [r];
    }

    /** There is a pending request. It is cleared before the transmission, so that one received during it stays
        pending; it is put back if nothing was sent and no other came. */
    method AnswerPending() returns (status: Status)
      requires Valid() && AtBoundary() && OutputValid() && pending && Attentive(0)
      modifies stream, net`inbox, net`packets, net`issued, chunk,
               this`format, this`pending, this`pendingRequest, this`pointers, this`log, this`unread, this`looked, this`longest,
               net`wire, net`sendFailed, capture, capture.buffer,
               this`sentFirst, this`cleared, this`replies, capture.readers
      ensures Valid() && Progress(|old(net.inbox)|, |old(unread)|, old(net.wire))
      ensures Prompt() && (status == Success ==> Attentive(4))
      ensures capture.readers[..] == old(capture.readers[..]) && (old(capture.ready) ==> capture.ready)
      ensures status == Success ==> AtBoundary() && OutputValid()
      ensures status != Success ==>
                && (Stuck() || net.sendFailed) && old(Due(pendingRequest)) && replies == old(replies)
                && BeginsAnswer(capture.screen, old(net.wire), net.wire, old(pendingRequest),
                                old(pendingRequest.incremental != 0 && sentFirst), old(format), old(capture.Contents()))
      ensures old(log) <= log
      ensures Transcript(capture.screen, log, start, replies) && EndOf(start, replies) <= net.wire
      ensures status == Success && old(Due(pendingRequest)) ==>
                replies == old(replies) + [Reply(|old(log)|, old(pendingRequest.incremental != 0 && sentFirst),
                                                 old(capture.Contents()), old(net.wire), net.wire)]
      ensures status == Success && !old(Due(pendingRequest)) ==>
                && replies == old(replies) && net.wire == old(net.wire) && net.inbox == old(net.inbox) && log == old(log)
                && pending && pendingRequest == old(pendingRequest)
    {
      hide InputValid, Stuck, IsAnswer, BeginsAnswer, Transcript, AnyShows, RequestsIn, FormatAfter, Clip, Due, Encode, EncodeAll, Parse,
        AllAcceptable, Acceptable, UpdateRect;
      ClearedAreReceived();
      ghost var before := cleared;
      var request := TakePending();
      var sent;
      ghost var seen;
      status, sent, seen := SendFramebufferUpdate(request);
      ClearedAreReceived();
      LogContinues();
      TranscriptStays(capture.screen, old(log), log, start, replies);
      if sent {
        assert log[..|old(log)|] == old(log);
        Record(|old(log)|, request, request.incremental != 0 && old(sentFirst), seen, old(net.wire));
      } else if status == Success && !pending {
        PutBack(request, before);
      }
    }

    /** RFB_Service_Pending_Update. */
    method ServicePendingUpdate() returns (status: Status)
      requires Valid() && AtBoundary() && OutputValid() && Attentive(0)
      modifies stream, net`inbox, net`packets, net`issued, chunk,
               this`format, this`pending, this`pendingRequest, this`pointers, this`log, this`unread, this`looked, this`longest,
               net`wire, net`sendFailed, capture, capture.buffer,
               this`sentFirst, this`cleared, this`replies, capture.readers
      ensures Valid() && Progress(|old(net.inbox)|, |old(unread)|, old(net.wire))
      ensures Prompt() && (status == Success ==> Attentive(4))
      ensures capture.readers[..] == old(capture.readers[..]) && (old(capture.ready) ==> capture.ready)
      ensures status == Success ==> AtBoundary() && OutputValid()
      ensures status != Success ==>
                && (Stuck() || net.sendFailed) && old(pending && Due(pendingRequest)) && replies == old(replies)
                && BeginsAnswer(capture.screen, old(net.wire), net.wire, old(pendingRequest),
                                old(pendingRequest.incremental != 0 && sentFirst), old(format), old(capture.Contents()))
      ensures old(log) <= log
      ensures Transcript(capture.screen, log, start, replies) && EndOf(start, replies) <= net.wire
      ensures status == Success ==>
                if old(pending && Due(pendingRequest)) then
                  replies == old(replies) + [Reply(|old(log)|, old(pendingRequest.incremental != 0 && sentFirst),
                                                   old(capture.Contents()), old(net.wire), net.wire)]
                else
                  && replies == old(replies) && net.wire == old(net.wire) && net.inbox == old(net.inbox) && log == old(log)
                  && pending == old(pending) && (pending ==> pendingRequest == old(pendingRequest))
    {
      hide InputValid, Stuck, BeginsAnswer, Transcript, AnyShows, Due;
      status := Success;
      if pending {
        status := AnswerPending();
      }
    }

    // ---------------------------------------------------------------- the session

    /** What is due is what the log and the replies call answerable. */
    lemma DueIsAnswerable()
      requires Valid() && OutputValid()
      ensures pending && Due(pendingRequest) <==> Answerable(capture.screen, log, replies, capture.Contents())
    {
      hide StreamReady, Transcript, AnyShows, AnyOwed, OffScreen, RequestsIn, FormatAfter, PointersIn, EncodeAll, AllAcceptable,
        UpdateRect, Clip;
      if pending {
        ClippedIsAnswerable(capture.screen, pendingRequest.rect, pendingRequest.incremental != 0 && sentFirst, capture.Damage());
      }
    }

    lemma FieldsFollowLog()
      requires InputValid() && OutputValid()
      ensures format == FormatAfter(log) && (sentFirst <==> AnyShows(capture.screen, log, replies))
      ensures pending ==> RequestsIn(log) != [] && pendingRequest == Newest(log)
    {
      hide StreamReady, Transcript, AnyShows, RequestsIn, FormatAfter, PointersIn, EncodeAll, AllAcceptable;
    }

    /** RFB_Service_Pending_Update at the beginning of the loop, as a pass. */
    method ServePass(ghost viewable: bool) returns (status: Status, ghost p: Pass)
      requires Valid() && AtBoundary() && OutputValid() && Attentive(0)
      requires viewable ==> capture.ready && Countable(capture.readers[..])
      modifies stream, net`inbox, net`packets, net`issued, chunk,
               this`format, this`pending, this`pendingRequest, this`pointers, this`log, this`unread, this`looked, this`longest,
               net`wire, net`sendFailed, capture, capture.buffer,
               this`sentFirst, this`cleared, this`replies, capture.readers
      ensures Valid() && Progress(|old(net.inbox)|, |old(unread)|, old(net.wire))
      ensures Prompt() && (status == Success ==> Attentive(4))
      ensures capture.readers[..] == old(capture.readers[..]) && (old(capture.ready) ==> capture.ready)
      ensures status == Success ==> AtBoundary() && OutputValid() && net.wire == EndOf(start, replies)
      ensures status != Success ==> Stuck() || net.sendFailed
      ensures Transcript(capture.screen, log, start, replies) && EndOf(start, replies) <= net.wire
      ensures viewable ==> Viewable(p.seen)
      ensures p == Pass(old(net.Position()), old(log), old(replies), old(capture.Contents()), net.Position(), log, replies)
      ensures if status == Success then Serves(capture.screen, p) else IsCutShort(capture.screen, p, start, net.wire)
    {
      hide InputValid, Stuck, Transcript, AnyShows, Due, Answerable, Viewable, BeginsAnswer, FormatAfter, RequestsIn;
      ghost var from, log0, replies0, seen := net.Position(), log, replies, capture.Contents();
      FieldsFollowLog();
      DueIsAnswerable();
      if viewable { ReadyIsViewable(); }
      status := ServicePendingUpdate();
      p := Pass(from, log0, replies0, seen, net.Position(), log, replies);
    }

    lemma ReadyIsViewable()
      requires capture.Valid() && capture.ready && Countable(capture.readers[..])
      ensures Viewable(capture.Contents())
    {
    }

    /** Nobody holds as many views of a buffer as can be counted. */
    ghost predicate Countable(readers: seq<int>) {
      forall i :: 0 <= i < |readers| ==> readers[i] != MAX_READERS
    }

    /** The second half of the loop: wait for input and handle one message. */
    method NextMessage(ghost p: Pass) returns (status: Status)
      requires Valid() && AtBoundary() && OutputValid() && Prompt()
      requires Serves(capture.screen, p) && p.done == log && p.after == replies && p.to == net.Position()
      modifies stream, net`inbox, net`packets, net`issued, chunk,
               this`format, this`pending, this`pendingRequest, this`pointers, this`log, this`unread, this`looked
      ensures Valid() && Progress(|old(net.inbox)|, |old(unread)|, old(net.wire))
      ensures OutputValid() && Attentive(0)
      ensures status == Success ==> AtBoundary() && |net.inbox| + |unread| < |old(net.inbox)| + |old(unread)|
      ensures status == Success ==> TurnTo(capture.screen, net.arrivals, p, log, replies, net.Position())
      ensures status != Success ==> Stuck() && log == old(log)
    {
      hide InputValid, Stuck, Transcript, AnyShows, RequestsIn, FormatAfter, PointersIn;
      status := Poll();
      if status == NoPacket {
        return Success;
      }
      if status != Success {
        return;
      }
      status := ProcessClientMessage();
      LogContinues();
      TranscriptStays(capture.screen, old(log), log, start, replies);
    }

    /** RFB_Session_Run after the handshake. When it ends, no packet is owned and no view is held; the replies
        on the wire, up to one that was cut short, are a transcript; and what was handled is the
        beginning of what the client sent - all of it, if the connection held. Before each look for input what was
        answerable has been answered. */
    method Run() returns (status: Status, ghost passes: seq<Pass>)
      requires Valid() && AtBoundary() && OutputValid() && Attentive(0)
      modifies stream, net`inbox, net`packets, net`issued, chunk,
               this`format, this`pending, this`pendingRequest, this`pointers, this`log, this`unread, this`looked, this`longest,
               net`wire, net`sendFailed, capture, capture.buffer,
               this`sentFirst, this`cleared, this`replies, capture.readers
      ensures Valid() && net.Owned() == {}
      ensures capture.readers[..] == old(capture.readers[..])
      ensures Transcript(capture.screen, log, start, replies) && EndOf(start, replies) <= net.wire
      ensures AllAcceptable(log) && input == EncodeAll(log) + unread
      ensures Stuck() || net.sendFailed
      ensures Prompt()
      ensures HistoryFrom(capture.screen, net.arrivals, passes, old(net.Position()), old(log), old(replies),
                          old(capture.ready && Countable(capture.readers[..])))
      ensures var last := passes[|passes| - 1];
        && last.done == log && last.after == replies
        && ((Serves(capture.screen, last) && net.wire == EndOf(start, replies))
            || IsCutShort(capture.screen, last, start, net.wire))
    {
      hide InputValid, OutputValid, Stuck, Transcript, Serves, IsCutShort, Viewable, HistoryFrom, TurnTo, Countable;
      ghost var from, log0, replies0 := net.Position(), log, replies;
      ghost var viewable := capture.ready && Countable(capture.readers[..]);
      passes := [];
      while true
        invariant Valid() && AtBoundary() && OutputValid() && Attentive(0)
        invariant capture.readers[..] == old(capture.readers[..]) && (viewable ==> capture.ready)
        invariant Underway(capture.screen, net.arrivals, passes, from, log0, replies0, viewable, net.Position(), log, replies)
        decreases |net.inbox| + |unread|
      {
        var rounds: nat := *;
        capture.PublishAnything(rounds);
        ghost var p;
        status, p := ServePass(viewable);
        NextPass(capture.screen, net.arrivals, passes, from, log0, replies0, viewable, p);
        passes := passes + [p];
        if status != Success {
          break;
        }
        status := NextMessage(p);
        if status != Success {
          break;
        }
      }
      CloseStream();
    }

    method CloseStream()
      requires Valid()
      modifies stream`packet, stream`rest, net`packets
      ensures Valid() && net.Owned() == {}
      ensures AllAcceptable(log) && input == EncodeAll(log) + unread
    {
      hide Parse, EncodeAll, AllAcceptable, RequestsIn, FormatAfter, PointersIn, DataOf;
      stream.Close();
    }

    /** If the client sent the messages `ms`, the first of them were handled; all of them, if no send failed and
        nothing went wrong with what arrived. */
    lemma EverythingIsHandled(ms: seq<Message>)
      requires StreamReady() && AllAcceptable(log) && input == EncodeAll(log) + unread && (Stuck() || net.sendFailed)
      requires AllAcceptable(ms) && input == EncodeAll(ms)
      ensures log <= ms
      ensures Undisturbed(net.arrivals, begin, ms) && !net.sendFailed ==> log == ms && unread == []
    {
      hide StreamReady, Parse, Encode, Acceptable;
      assert EncodeAll(ms) + [] == EncodeAll(ms);
      SplitsAreNested(ms, [], log, unread);
      if Undisturbed(net.arrivals, begin, ms) && !net.sendFailed {
        if Parse(unread).Some? {
          NotUndisturbed(ms);
        } else {
          DecodedIsAll(ms, log, unread);
        }
      }
    }

    /** A message cut short is a disturbance. */
    lemma NotUndisturbed(ms: seq<Message>)
      requires StreamReady() && AllAcceptable(log) && input == EncodeAll(log) + unread && Stuck()
      requires AllAcceptable(ms) && input == EncodeAll(ms) && log <= ms && unread == EncodeAll(ms[|log|..])
      requires Parse(unread).Some?
      ensures !Undisturbed(net.arrivals, begin, ms)
    {
      hide EncodeAll, Parse, Encode, Acceptable, DataOf, StalledAt, Undisturbed;
      var i := net.Position() - 1;
      assert begin <= i && net.arrivals[i + 1..] == net.inbox;
      assert ms[..|log|] == log;
      hide StreamReady, AllAcceptable;
      FirstSize(ms, |log|);
      CutShort(net.arrivals, begin, i, ms, |log|, unread);
    }

    /** Between messages: replies and the pending request together are no more than the requests received, and the
        newest request is pending or is the one answered last. */
    lemma RequestBookkeeping()
      requires InputValid() && OutputValid()
      ensures |replies| + (if pending then 1 else 0) <= |RequestsIn(log)|
      ensures RequestsIn(log) != [] ==>
                var newest := RequestsIn(log)[|RequestsIn(log)| - 1];
                if pending then pendingRequest == newest
                else
                  && replies != []
                  && var r := replies[|replies| - 1];
                     r.handled <= |log| && Settled(log, r) == |RequestsIn(log)| && Answers(log, r) == newest
    {
      hide Transcript, AnyShows, EndOf, Settled, Answers, Parse, EncodeAll, AllAcceptable, RequestsIn, FormatAfter, PointersIn;
      NoUnsolicitedUpdate(capture.screen, log, start, replies);
      if replies != [] {
        LastReplyAnswers(capture.screen, log, start, replies);
      }
    }
  }
}
