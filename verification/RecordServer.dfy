/** The data server on TCP port 7001 (app_netxduo.c): fixed-size records rebuilt from packets cut anywhere, one
    response per record. */
module RecordServer {
  import opened Common
  import opened NetX

  const RECORD_SIZE: nat := 64

  /** The complete records among the first `n` bytes of a stream, and the bytes left over. */
  function Complete(n: nat): nat {
    n / RECORD_SIZE
  }

  function Carried(n: nat): nat {
    n % RECORD_SIZE
  }

  lemma OneRecordLess(n: nat)
    requires RECORD_SIZE <= n
    ensures Complete(n) == Complete(n - RECORD_SIZE) + 1 && Carried(n) == Carried(n - RECORD_SIZE)
  {
  }

  lemma CountOn(length: nat, n: nat)
    requires 0 < n <= RECORD_SIZE - Carried(length)
    ensures n == RECORD_SIZE - Carried(length) ==> Complete(length + n) == Complete(length) + 1 && Carried(length + n) == 0
    ensures n < RECORD_SIZE - Carried(length) ==>
              Complete(length + n) == Complete(length) && Carried(length + n) == Carried(length) + n
  {
  }

  /** The controls that the complete records of a stream set, in order: the first four bytes of each. */
  function ControlsOf(stream: seq<byte>): seq<seq<byte>> {
    if |stream| < RECORD_SIZE then [] else [stream[..4]] + ControlsOf(stream[RECORD_SIZE..])
  }

  /** One for every complete record. */
  lemma {:induction false} ControlsCount(stream: seq<byte>)
    ensures |ControlsOf(stream)| == Complete(|stream|)
  {
    if |stream| >= RECORD_SIZE {
      OneRecordLess(|stream|);
      ControlsCount(stream[RECORD_SIZE..]);
    }
  }

  lemma {:induction false} ControlsAt(stream: seq<byte>, k: nat)
    requires k < Complete(|stream|)
    ensures k < |ControlsOf(stream)| && ControlsOf(stream)[k] == stream[RECORD_SIZE * k..RECORD_SIZE * k + 4]
  {
    OneRecordLess(|stream|);
    if k > 0 {
      var rest, at := stream[RECORD_SIZE..], RECORD_SIZE * (k - 1);
      ControlsAt(rest, k - 1);
      assert ControlsOf(stream) == [stream[..4]] + ControlsOf(rest);
      assert rest[at..at + 4] == stream[RECORD_SIZE + at..RECORD_SIZE + at + 4];
    }
  }

  /** What follows the complete records. */
  function RestOf(stream: seq<byte>): (r: seq<byte>)
    ensures |r| == Carried(|stream|)
  {
    stream[|stream| - Carried(|stream|)..]
  }

  lemma RestOfTail(stream: seq<byte>)
    requires |stream| >= RECORD_SIZE
    ensures RestOf(stream[RECORD_SIZE..]) == RestOf(stream)
  {
    OneRecordLess(|stream|);
  }

  /** Bytes that complete no record set nothing. */
  lemma {:induction false} ControlsStay(stream: seq<byte>, more: seq<byte>)
    requires Carried(|stream|) + |more| < RECORD_SIZE
    ensures ControlsOf(stream + more) == ControlsOf(stream)
  {
    if |stream| >= RECORD_SIZE {
      OneRecordLess(|stream|);
      ControlsStay(stream[RECORD_SIZE..], more);
      assert (stream + more)[RECORD_SIZE..] == stream[RECORD_SIZE..] + more;
      assert (stream + more)[..4] == stream[..4];
    }
  }

  /** Bytes that complete one record set its controls. */
  lemma {:induction false} ControlsGrow(stream: seq<byte>, more: seq<byte>)
    requires Carried(|stream|) + |more| == RECORD_SIZE
    ensures ControlsOf(stream + more) == ControlsOf(stream) + [(RestOf(stream) + more)[..4]]
  {
    if |stream| >= RECORD_SIZE {
      OneRecordLess(|stream|);
      RestOfTail(stream);
      ControlsGrow(stream[RECORD_SIZE..], more);
      assert (stream + more)[RECORD_SIZE..] == stream[RECORD_SIZE..] + more;
      assert (stream + more)[..4] == stream[..4];
    } else {
      assert RestOf(stream) == stream;
      assert (stream + more)[RECORD_SIZE..] == [];
    }
  }

  /** `n` more bytes, at most up to the end of a record. */
  lemma Advance(stream: seq<byte>, part: seq<byte>)
    requires 0 < |part| <= RECORD_SIZE - |RestOf(stream)|
    ensures |part| == RECORD_SIZE - |RestOf(stream)| ==>
              && Complete(|stream + part|) == Complete(|stream|) + 1 && RestOf(stream + part) == []
              && ControlsOf(stream + part) == ControlsOf(stream) + [(RestOf(stream) + part)[..4]]
              && |stream + part| >= RECORD_SIZE
    ensures |part| < RECORD_SIZE - |RestOf(stream)| ==>
              && Complete(|stream + part|) == Complete(|stream|) && RestOf(stream + part) == RestOf(stream) + part
              && ControlsOf(stream + part) == ControlsOf(stream)
  {
    CountOn(|stream|, |part|);
    if |part| == RECORD_SIZE - |RestOf(stream)| {
      ControlsGrow(stream, part);
    } else {
      ControlsStay(stream, part);
      DropOfConcat(stream, part, |stream| - Carried(|stream|));
    }
    hide ControlsOf;
  }

  lemma DropOfConcat(s: seq<byte>, p: seq<byte>, i: nat)
    requires i <= |s|
    ensures (s + p)[i..] == s[i..] + p
  {
  }

  lemma NothingYet()
    ensures ControlsOf([]) == [] && RestOf([]) == [] && Complete(0) == 0
  {
  }

  class Server {
    const net: Stack
    const buffer: array<byte>
    /** receive_length: how much of the next record is there. */
    var length: nat
    /** The controls kept in the application state. */
    var controls: seq<byte>

    /** What this client sent that was consumed, the controls set by it, and the responses accepted for it. */
    ghost var received: seq<byte>
    ghost var history: seq<seq<byte>>
    ghost var responses: nat

    /** Whatever the packets were, the consumed bytes determine everything. */
    ghost predicate Consistent()
      reads `length, `controls, `received, `history, buffer
    {
      && buffer.Length == RECORD_SIZE
      && length == |RestOf(received)| && buffer[..length] == RestOf(received)
      && history == ControlsOf(received)
      && (history != [] ==> controls == history[|history| - 1])
    }

    ghost predicate Valid()
      reads this, buffer, net
    {
      Consistent() && net.Valid() && responses <= Complete(|received|)
    }

    constructor (net: Stack, buffer: array<byte>, controls: seq<byte>)
      requires net.Valid() && buffer.Length == RECORD_SIZE
      ensures Valid() && this.net == net && this.buffer == buffer && this.controls == controls && received == []
    {
      NothingYet();
      hide ControlsOf, RestOf;
      this.net, this.buffer, this.length, this.controls := net, buffer, 0, controls;
      received, history, responses := [], [], 0;
    }

    /** A client was accepted. */
    method Accept()
      requires buffer.Length == RECORD_SIZE && net.Valid()
      modifies this`length, this`received, this`history, this`responses
      ensures Valid() && received == [] && responses == 0 == Complete(0) && controls == old(controls)
    {
      NothingYet();
      hide ControlsOf, RestOf;
      length := 0;
      received, history, responses := [], [], 0;
    }

    /** Copies one part of a packet behind what is there; a record that is complete now sets the controls. */
    method Take(data: seq<byte>, offset: nat, n: nat) returns (complete: bool)
      requires Consistent() && offset + n <= |data| && 0 < n <= RECORD_SIZE - length
      modifies buffer, this`length, this`controls, this`received, this`history
      ensures Consistent()
      ensures received == old(received) + data[offset..offset + n]
      ensures complete ==> Complete(|received|) == Complete(|old(received)|) + 1
      ensures !complete ==> Complete(|received|) == Complete(|old(received)|) && controls == old(controls)
      ensures |received| < RECORD_SIZE ==> controls == old(controls)
    {
      ghost var kept, part := RestOf(received), data[offset..offset + n];
      Advance(received, part);
      hide ControlsOf, Complete, RestOf;
      CopyOut(buffer, length, data, offset, n);
      length := length + n;
      complete := length == RECORD_SIZE;
      if complete {
        controls := buffer[..4];
        assert (kept + part)[..4] == controls;
        length := 0;
        history := history + [controls];
      }
      received := received + part;
    }

    /** App_Network_Send_Response: the response is built from the application state. */
    method SendResponse() returns (status: Status)
      requires net.Valid() && responses < Complete(|received|)
      modifies net`packets, net`issued, net`wire, net`sendFailed, this`responses
      ensures net.Valid() && net.Owned() == old(net.Owned())
      ensures forall p :: p in old(net.packets) ==> p in net.packets && net.packets[p] == old(net.packets[p])
      ensures status == Success ==>
                responses == old(responses) + 1 && |net.wire| == |old(net.wire)| + RECORD_SIZE
      ensures status == Success ==> net.sendFailed == old(net.sendFailed)
      ensures status != Success ==> responses == old(responses) && net.wire == old(net.wire) && net.sendFailed
    {
      var response := BuildResponse();
      status := net.SendPacket(response);
      if status == Success {
        responses := responses + 1;
      }
    }

    method BuildResponse() returns (response: seq<byte>)
      ensures |response| == RECORD_SIZE
    {
      response := [];
      while |response| < RECORD_SIZE
        invariant |response| <= RECORD_SIZE
      {
        var b: byte := *;
        response := response + [b];
      }
    }

    /** The controls are the first four bytes of the last complete record of the stream, and what is kept is what
        follows it. */
    lemma LastRecordSetsControls()
      requires Consistent()
      ensures buffer[..length] == received[|received| - |received| % RECORD_SIZE..]
      ensures |received| >= RECORD_SIZE ==>
                var last := RECORD_SIZE * (Complete(|received|) - 1);
                controls == received[last..last + 4]
    {
      if |received| >= RECORD_SIZE {
        ControlsCount(received);
        ControlsAt(received, Complete(|received|) - 1);
      }
    }

    lemma LengthIsSmall()
      requires Consistent()
      ensures length < RECORD_SIZE
    {
    }

    /** App_Network_Process_Packet: on success the whole packet was consumed, unless it could not be read. */
    method ProcessPacket(p: nat) returns (status: Status, ghost taken: nat)
      requires Valid() && p in net.Owned() && responses == Complete(|received|)
      modifies this`length, this`controls, this`received, this`history, this`responses, buffer,
               net`packets, net`issued, net`wire, net`sendFailed
      ensures Valid() && net.Owned() == old(net.Owned())
      ensures p in net.packets && net.packets[p] == old(net.packets[p])
      ensures taken <= |net.packets[p].data| && received == old(received) + net.packets[p].data[..taken]
      ensures responses == Complete(|received|) || (status != Success && net.sendFailed)
      ensures status == Success && net.packets[p].lengthKnown && net.packets[p].readable ==> taken == |net.packets[p].data|
      ensures !net.packets[p].lengthKnown || !net.packets[p].readable ==> taken == 0
      ensures !net.packets[p].lengthKnown ==> status == Success
      ensures status != Success ==> net.sendFailed || !net.packets[p].readable
      ensures status == Success ==> net.sendFailed == old(net.sendFailed)
      ensures |net.wire| - RECORD_SIZE * responses == old(|net.wire| - RECORD_SIZE * responses)
      ensures |received| < RECORD_SIZE ==> controls == old(controls)
    {
      hide Consistent, Complete;
      var packet := net.packets[p];
      var packetLength := if packet.lengthKnown then |packet.data| else 0;
      var offset := 0;
      status := Success;
      while offset < packetLength
        invariant Valid() && net.Owned() == old(net.Owned())
        invariant p in net.packets && net.packets[p] == packet
        invariant net.sendFailed == old(net.sendFailed) && (|received| < RECORD_SIZE ==> controls == old(controls))
        invariant offset <= packetLength && received == old(received) + packet.data[..offset]
        invariant !packet.readable ==> offset == 0
        invariant status == Success && responses == Complete(|received|)
        invariant |net.wire| - RECORD_SIZE * responses == old(|net.wire| - RECORD_SIZE * responses)
      {
        LengthIsSmall();
        var chunk := RECORD_SIZE - length;
        if chunk > packetLength - offset {
          chunk := packetLength - offset;
        }
        if !packet.readable {
          var failed: bool := *;
          status := if failed then Failed else Success;
          break;
        }
        assert 0 < chunk <= packetLength - offset;
        var copied: nat :| 0 < copied <= chunk;
        assert packet.data[..offset] + packet.data[offset..offset + copied] == packet.data[..offset + copied];
        var complete := Take(packet.data, offset, copied);
        offset := offset + copied;
        if complete {
          status := SendResponse();
          if status != Success {
            break;
          }
        }
      }
      taken := offset;
    }

    /** One client: the loop of the data server's thread between accepting and resetting the socket. `checks` are the
        outcomes of its tests that the link is up and no disconnection was asked for, one before each call to receive.
        While they hold, it ends only when the connection does, or for a packet or a send that failed. */
    method Serve(checks: seq<bool>)
      requires buffer.Length == RECORD_SIZE && net.Valid() && net.Owned() == {} && !net.sendFailed
      modifies this`length, this`controls, this`received, this`history, this`responses, buffer,
               net`packets, net`issued, net`wire, net`sendFailed, net`inbox
      ensures Valid() && net.Owned() == {}
      ensures Intact(old(net.inbox)) && !net.sendFailed ==> received + DataOf(net.inbox) == DataOf(old(net.inbox))
      ensures Intact(old(net.inbox)) ==> received <= DataOf(old(net.inbox))
      ensures !net.sendFailed ==> responses == Complete(|received|)
      ensures |net.wire| == |old(net.wire)| + RECORD_SIZE * responses
      ensures |received| < RECORD_SIZE ==> controls == old(controls)
      ensures |net.inbox| <= |old(net.inbox)|
      ensures var calls := |old(net.inbox)| - |net.inbox|;
        || calls >= |checks| || !checks[calls]
        || net.inbox == [] || net.sendFailed || (0 < calls && Ends(old(net.inbox)[calls - 1]))
      ensures Uninterrupted(old(net.inbox), checks) && !net.sendFailed ==>
                && received == DataOf(old(net.inbox))
                && responses == Complete(|DataOf(old(net.inbox))|)
    {
      hide Consistent, Intact, DataOf, Uninterrupted, Complete, Ends;
      Accept();
      ghost var all := net.inbox;
      ServeAccepted(checks);
      if Uninterrupted(all, checks) && !net.sendFailed {
        NothingIsLeft(all, net.inbox, checks);
        assert received + [] == received;
      }
    }

    /** The loop itself. */
    method ServeAccepted(checks: seq<bool>)
      requires Valid() && net.Owned() == {} && !net.sendFailed && received == [] && responses == 0 == Complete(|received|)
      modifies this`length, this`controls, this`received, this`history, this`responses, buffer,
               net`packets, net`issued, net`wire, net`sendFailed, net`inbox
      ensures Valid() && net.Owned() == {}
      ensures Intact(old(net.inbox)) ==>
                && received <= DataOf(old(net.inbox))
                && (!net.sendFailed ==> received + DataOf(net.inbox) == DataOf(old(net.inbox)))
      ensures !net.sendFailed ==> responses == Complete(|received|)
      ensures |net.wire| == |old(net.wire)| + RECORD_SIZE * responses
      ensures |received| < RECORD_SIZE ==> controls == old(controls)
      ensures |net.inbox| <= |old(net.inbox)|
      ensures var calls := |old(net.inbox)| - |net.inbox|;
        || calls >= |checks| || !checks[calls]
        || net.inbox == [] || net.sendFailed || (0 < calls && Ends(old(net.inbox)[calls - 1]))
    {
      hide Consistent, Intact, DataOf, Complete, Ends;
      ghost var all := net.inbox;
      assert all[0..] == all && [] + DataOf(all) == DataOf(all);
      var n := 0;
      while n < |checks| && checks[n]
        invariant n <= |all| && net.inbox == all[n..]
        invariant Valid() && net.Owned() == {} && !net.sendFailed && responses == Complete(|received|)
        invariant Intact(all) ==> Intact(net.inbox) && received + DataOf(net.inbox) == DataOf(all)
        invariant |net.wire| == |old(net.wire)| + RECORD_SIZE * responses
        invariant |received| < RECORD_SIZE ==> controls == old(controls)
        decreases |net.inbox|
      {
        NextEvent(all, n);
        var status := ServeOne();
        if status == Failed {
          break;
        }
        n := n + 1;
      }
    }

    /** Receives once, and processes and releases the packet if there is one. */
    method ServeOne() returns (status: Status)
      requires Valid() && net.Owned() == {} && !net.sendFailed && responses == Complete(|received|)
      modifies this`length, this`controls, this`received, this`history, this`responses, buffer,
               net`packets, net`issued, net`wire, net`sendFailed, net`inbox
      ensures Valid() && net.Owned() == {}
      ensures net.inbox == if old(net.inbox) == [] then [] else old(net.inbox)[1..]
      ensures status != Failed ==> old(net.inbox) != [] && !net.sendFailed
      ensures status == Failed ==> old(net.inbox) == [] || net.sendFailed || Ends(old(net.inbox)[0])
      ensures !net.sendFailed ==> responses == Complete(|received|)
      ensures |net.wire| - RECORD_SIZE * responses == old(|net.wire| - RECORD_SIZE * responses)
      ensures old(received) <= received && (|received| < RECORD_SIZE ==> controls == old(controls))
      ensures Intact(old(net.inbox)) ==>
                && Intact(net.inbox) && received <= old(received) + DataOf(old(net.inbox))
                && (!net.sendFailed ==> received + DataOf(net.inbox) == old(received) + DataOf(old(net.inbox)))
    {
      hide Consistent, Intact, DataOf;
      var p;
      if net.inbox != [] {
        Rest(net.inbox);
      }
      status, p := net.Receive();
      if status == Success {
        ghost var data, taken := net.packets[p].data, 0;
        status, taken := ProcessPacket(p);
        net.Release(p);
        PartTaken(old(received), data, taken, DataOf(net.inbox));
        if status != Success {
          status := Failed;
        }
      }
    }
  }

  /** What is consumed of a packet continues the stream. */
  lemma PartTaken(received: seq<byte>, data: seq<byte>, taken: nat, later: seq<byte>)
    requires taken <= |data|
    ensures received + data[..taken] <= received + (data + later)
    ensures taken == |data| ==> (received + data[..taken]) + later == received + (data + later)
  {
  }

  /** The first event and the rest. */
  lemma Rest(events: seq<Event>)
    requires events != []
    ensures events[0].Arrival? ==> DataOf(events) == events[0].data + DataOf(events[1..])
    ensures !events[0].Arrival? ==> DataOf(events) == DataOf(events[1..])
    ensures Intact(events) ==>
              Intact(events[1..]) && (events[0].Arrival? ==> events[0].lengthKnown && events[0].readable)
  {
  }

  /** Nothing is received after this: the connection is gone, or a packet cannot be read. */
  predicate Ends(e: Event) {
    e.Broken? || (e.Arrival? && !e.readable)
  }

  /** Every packet can be read, the connection holds, and so do the checks until everything was received. */
  ghost predicate Uninterrupted(events: seq<Event>, checks: seq<bool>) {
    && Intact(events) && (forall i :: 0 <= i < |events| ==> !events[i].Broken?)
    && (forall i :: 0 <= i <= |events| ==> i < |checks| && checks[i])
  }

  lemma NothingIsLeft(all: seq<Event>, inbox: seq<Event>, checks: seq<bool>)
    requires Uninterrupted(all, checks) && |inbox| <= |all|
    requires var calls := |all| - |inbox|;
      calls >= |checks| || !checks[calls] || inbox == [] || (0 < calls && Ends(all[calls - 1]))
    ensures inbox == [] && DataOf(inbox) == [] && Intact(all)
  {
    var calls := |all| - |inbox|;
    assert checks[calls];
    assert calls > 0 ==> !Ends(all[calls - 1]);
  }

  lemma NextEvent(all: seq<Event>, n: nat)
    requires n <= |all|
    ensures n < |all| ==> all[n..] != [] && all[n..][0] == all[n] && all[n..][1..] == all[n + 1..]
    ensures n == |all| ==> all[n..] == []
  {
  }

  /** Every packet of a list can be read. */
  ghost predicate Intact(events: seq<Event>) {
    forall i :: 0 <= i < |events| && events[i].Arrival? ==> events[i].lengthKnown && events[i].readable
  }
}
