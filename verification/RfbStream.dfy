/** RFB_STREAM (app_vnc_server.c): a byte stream rebuilt from TCP packets. */
module RfbStream {
  import opened Common
  import opened NetX

  class Stream {
    const net: Stack
    var packet: Option<nat>
    var packetOffset: nat
    var packetLength: nat

    /** The bytes not yet received: what is left of the packet, then everything still to arrive. */
    ghost var rest: seq<byte>

    /** The stream's packet is the only one the session owns. */
    ghost predicate OwnsPacket()
      reads this, net
    {
      net.Valid() && net.Owned() == (if packet.Some? then {packet.value} else {})
    }

    ghost predicate Valid()
      reads this, net
    {
      && OwnsPacket()
      && (packet.Some? ==>
            && packet.value in net.packets
            && packetLength == |net.packets[packet.value].data|
            && packetOffset < packetLength
            && (net.packets[packet.value].readable || net.Fault()))
      && rest == Remainder() + DataOf(net.inbox)
    }

    ghost function Remainder(): seq<byte>
      reads this, net
    {
      if packet.Some? && packet.value in net.packets && packetOffset <= |net.packets[packet.value].data|
      then net.packets[packet.value].data[packetOffset..]
      else []
    }

    constructor (net: Stack, packet: Option<nat>, packetOffset: nat)
      requires net.Valid() && net.Owned() == if packet.Some? then {packet.value} else {}
      requires packet.Some? ==> packetOffset < |net.packets[packet.value].data| && net.packets[packet.value].readable
      ensures Valid() && this.net == net && this.packet == packet
    {
      this.net, this.packet, this.packetOffset := net, packet, packetOffset;
      packetLength := if packet.Some? then |net.packets[packet.value].data| else 0;
      rest := (if packet.Some? then net.packets[packet.value].data[packetOffset..] else []) + DataOf(net.inbox);
    }

    /** RFB_Stream_Close: what was left of the packet is lost. */
    method Close()
      requires OwnsPacket()
      modifies this`packet, this`rest, net`packets
      ensures Valid() && packet == None && rest == DataOf(net.inbox) && net.Owned() == {}
    {
      if packet.Some? {
        net.Release(packet.value);
        packet := None;
      }
      rest := DataOf(net.inbox);
    }

    /** RFB_Stream_Fill: one call, if no packet is left over. */
    method Fill() returns (status: Status)
      requires Valid()
      modifies this, net`inbox, net`packets, net`issued
      ensures Valid()
      ensures |net.inbox| <= |old(net.inbox)|
      ensures status == Success <==> packet.Some?
      ensures status != Failed ==> rest == old(rest)
      ensures status == Success ==>
                if old(packet).Some? then net.inbox == old(net.inbox)
                else net.Position() == old(net.Position()) + 1 && net.arrivals[old(net.Position())].Arrival?
      ensures status == NoPacket ==>
                && net.Position() == old(net.Position()) + 1 && net.arrivals[old(net.Position())].Empty?
      ensures status == Failed ==>
                || (net.inbox == old(net.inbox) == [] && old(rest) == [])
                || (net.Position() == old(net.Position()) + 1 && net.Fault())
    {
      if packet.Some? {
        return Success;
      }
      hide DataOf;
      FirstData(net.inbox);
      var p;
      status, p := net.Receive();
      if status == Success {
        assert net.arrivals[old(net.Position())].WellFormed();
        status := Adopt(p);
      } else if status == Failed {
        rest := DataOf(net.inbox);
      }
    }

    /** The rest of RFB_Stream_Fill for a packet that has come. */
    method Adopt(p: nat) returns (status: Status)
      requires net.Valid() && net.Owned() == {p} && packet.None? && net.packets[p].data != []
      requires rest == net.packets[p].data + DataOf(net.inbox)
      requires (net.packets[p].readable && net.packets[p].lengthKnown) || net.Fault()
      modifies this, net`packets
      ensures Valid() && status in {Success, Failed} && (status == Success <==> packet.Some?)
      ensures status == Success ==> rest == old(rest)
      ensures status == Failed ==> net.Fault()
    {
      hide DataOf;
      packet := Some(p);
      packetOffset := 0;
      packetLength := |net.packets[p].data|;
      if !net.packets[p].lengthKnown {
        Close();
        return Failed;
      }
      status := Success;
    }

    /** `part` more bytes of the packet are used; it is let go when it is used up. */
    method Advance(part: nat)
      requires Valid() && packet.Some? && 0 < part <= packetLength - packetOffset
      modifies this, net`packets
      ensures Valid()
      ensures old(rest) == old(net.packets[packet.value].data[packetOffset..packetOffset + part]) + rest
      ensures part == old(packetLength - packetOffset) ==> packet.None?
      ensures packet.None? ==> packetOffset == packetLength == 0
    {
      hide DataOf;
      ghost var bytes, later, before := net.packets[packet.value].data, DataOf(net.inbox), rest;
      ghost var piece, left := bytes[packetOffset..packetOffset + part], bytes[packetOffset + part..];
      assert before == piece + (left + later) by {
        MoveAlong(bytes, packetOffset, part, later);
      }
      packetOffset := packetOffset + part;
      rest := left + later;
      if packetOffset >= packetLength {
        assert left + later == later by {
          NothingLeft(left, later);
        }
        Close();
        packetOffset, packetLength := 0, 0;
      }
      assert before == piece + rest;
    }

    lemma PacketIsLeft()
      requires Valid() && packet.Some?
      ensures packet.value in net.packets && packetOffset < packetLength == |net.packets[packet.value].data|
    {
    }

    /** Copies what the current packet has, up to `length`, behind the `filled` bytes already there, and
        lets the packet go when it is used up. */
    method TakeFromPacket(data: array<byte>, filled: nat, length: nat) returns (now: nat)
      requires Valid() && packet.Some? && filled < length <= data.Length
      modifies data, this, net`packets
      ensures Valid() && filled < now <= length
      ensures old(data[..filled]) + old(rest) == data[..now] + rest
      ensures now == length || packet.None?
    {
      hide DataOf, Valid;
      PacketIsLeft();
      var available := packetLength - packetOffset;
      var part := if length - filled < available then length - filled else available;
      now := filled + part;
      var bytes := net.packets[packet.value].data;
      ghost var front, piece, before := data[..filled], bytes[packetOffset..packetOffset + part], rest;
      CopyOut(data, filled, bytes, packetOffset, part);
      Advance(part);
      assert front + before == data[..now] + rest by {
        Regroup(front, piece, rest);
      }
    }

    /** Waiting was given up, with no packet left over. */
    ghost predicate GaveUpWaiting(before: seq<byte>, from: nat)
      reads this, net`inbox
    {
      net.OutOfPatience(from) && packet.None? && |rest| <= |before|
    }

    /** Without a packet in hand, RFB_Stream_Receive waits for one: either there is one now, or it may wait `again`
        after `now` waits in vain, or it gives up. */
    method AwaitPacket(stalls: nat, ghost from: nat) returns (status: Status, now: nat, again: bool)
      requires Valid() && packet.None?
      requires stalls <= MAX_RETRIES && from + stalls <= net.Position() && InVain(net.arrivals, net.Position(), stalls)
      modifies this, net`inbox, net`packets, net`issued
      ensures Valid() && |net.inbox| <= |old(net.inbox)| && from <= net.Position()
      ensures status == Success || again ==> rest == old(rest)
      ensures status == Success ==> packet.Some? && now == 0 && !again
      ensures again ==> packet.None? && now == stalls + 1 <= MAX_RETRIES && from + now <= net.Position()
      ensures status == Success || again ==> LinkHeld(net.arrivals, old(net.Position()), net.Position())
      ensures net.Position() <= old(net.Position()) + 1
      ensures InVain(net.arrivals, net.Position(), now)
      ensures status != Success ==> packet.None?
      ensures status != Success && !again ==>
                || old(rest) == [] || net.Fault()
                || (GaveUpWaiting(old(rest), from) && rest == old(rest))
      ensures EmptyWaits(net.arrivals, from, net.Position())
              <= EmptyWaits(net.arrivals, from, old(net.Position())) + if status == Success then 0 else 1
      ensures Flowing(net.arrivals) && status != Success && !again ==> old(rest) == []
    {
      hide DataOf, StalledAt, InVain;
      if Flowing(net.arrivals) { net.FlowingNeverStops(); }
      now, again := 0, false;
      status := Fill();
      NoneInVain(net.arrivals, net.Position());
      if status == NoPacket {
        OneMoreInVain(net.arrivals, net.Position() - 1, stalls);
        now := stalls + 1;
        again := now <= MAX_RETRIES && net.arrivals[net.Position() - 1].linkUp;
      }
    }

    /** RFB_Stream_Receive: the next `length` bytes, whatever packets they come in. */
    method Receive(data: array<byte>, length: nat) returns (status: Status)
      requires Valid() && length <= data.Length
      modifies data, this, net`inbox, net`packets, net`issued
      ensures Valid()
      ensures |net.inbox| <= |old(net.inbox)|
      ensures status == Success ==> old(rest) == data[..length] + rest
      ensures status != Success ==>
                || |old(rest)| < length || net.Fault()
                || (GaveUpWaiting(old(rest), old(net.Position())) && |old(rest)| - |rest| < length
                    && (old(packet).Some? ==> |rest| < |old(rest)|))
      ensures status != Success ==> packet.None?
      ensures EmptyWaits(net.arrivals, old(net.Position()), net.Position()) <= 5 * length + if status == Success then 0 else 1
      ensures LinkHeld(net.arrivals, old(net.Position()), if status == Success then net.Position() else Earlier(net.Position()))
      ensures Flowing(net.arrivals) ==> (status == Success <==> length <= |old(rest)|)
    {
      hide DataOf, StalledAt, InVain, EmptyWaits, Flowing, LinkHeld, Earlier;
      var filled: nat, stalls: nat, again := 0, 0, false;
      ghost var all, from := rest, net.Position();
      NoneYet(net.arrivals, from);
      while filled < length
        invariant Valid() && filled <= length && from <= net.Position()
        invariant all == data[..filled] + rest
        invariant stalls <= MAX_RETRIES && from + stalls <= net.Position() && InVain(net.arrivals, net.Position(), stalls)
        invariant EmptyWaits(net.arrivals, from, net.Position()) <= 5 * filled + stalls
        invariant LinkHeld(net.arrivals, from, net.Position())
        invariant stalls > 0 ==> packet.None? && filled < length
        invariant old(packet).Some? && filled == 0 ==> packet.Some?
        decreases length - filled, MAX_RETRIES - stalls
      {
        if packet.None? {
          ghost var middle := net.Position();
          status, stalls, again := AwaitPacket(stalls, from);
          LinkHeldAdd(net.arrivals, from, middle, net.Position());
          if again {
            continue;
          }
          if status != Success {
            return;
          }
        }
        if !net.packets[packet.value].readable {
          if Flowing(net.arrivals) { net.FlowingNeverStops(); }
          LinkHeldAdd(net.arrivals, from, net.Position(), net.Position());
          Close();
          status := Failed;
          return;
        }
        filled := TakeFromPacket(data, filled, length);
      }
      status := Success;
    }

    /** RFB_Stream_Skip: reads into `sink` - the server's transmit buffer - overwriting it. */
    method Skip(sink: array<byte>, length: nat) returns (status: Status)
      requires Valid() && 0 < sink.Length
      modifies sink, this, net`inbox, net`packets, net`issued
      ensures Valid()
      ensures |net.inbox| <= |old(net.inbox)|
      ensures status == Success ==> length <= |old(rest)| && rest == old(rest)[length..]
      ensures status != Success ==>
                || |old(rest)| < length || net.Fault()
                || (GaveUpWaiting(old(rest), old(net.Position())) && |old(rest)| - |rest| < length)
      ensures status != Success ==> packet.None?
      ensures EmptyWaits(net.arrivals, old(net.Position()), net.Position()) <= 5 * length + if status == Success then 0 else 1
      ensures LinkHeld(net.arrivals, old(net.Position()), if status == Success then net.Position() else Earlier(net.Position()))
      ensures Flowing(net.arrivals) ==> (status == Success <==> length <= |old(rest)|)
    {
      hide DataOf, Valid, EmptyWaits, Flowing, LinkHeld, Earlier;
      ghost var from := net.Position();
      NoneYet(net.arrivals, from);
      var left := length;
      while left != 0
        invariant Valid() && 0 <= left <= length && |net.inbox| <= |old(net.inbox)|
        invariant from <= net.Position()
        invariant length - left <= |old(rest)| && rest == old(rest)[length - left..]
        invariant EmptyWaits(net.arrivals, from, net.Position()) <= 5 * (length - left)
        invariant LinkHeld(net.arrivals, from, net.Position())
        decreases left
      {
        var part := if left > sink.Length then sink.Length else left;
        ghost var middle := net.Position();
        status := Receive(sink, part);
        EmptyWaitsAdd(net.arrivals, from, middle, net.Position());
        LinkHeldAdd(net.arrivals, from, middle, net.Position());
        if status != Success {
          return;
        }
        Dropped(sink[..part], rest, old(rest), length - left, part);
        left := left - part;
      }
      status := Success;
    }
  }

  lemma FirstData(inbox: seq<Event>)
    ensures inbox == [] ==> DataOf(inbox) == []
    ensures inbox != [] ==> DataOf(inbox) == (if inbox[0].Arrival? then inbox[0].data else []) + DataOf(inbox[1..])
    ensures inbox != [] && !inbox[0].Arrival? ==> DataOf(inbox) == DataOf(inbox[1..])
  {
  }

  lemma MoveAlong(bytes: seq<byte>, offset: nat, part: nat, later: seq<byte>)
    requires offset + part <= |bytes|
    ensures bytes[offset..] + later == bytes[offset..offset + part] + (bytes[offset + part..] + later)
  {
  }

  /** `taken` followed by `rest` is `all` without its first `from` bytes. */
  lemma Dropped(taken: seq<byte>, rest: seq<byte>, all: seq<byte>, from: nat, part: nat)
    requires |taken| == part && from <= |all| && all[from..] == taken + rest
    ensures from + part <= |all| && all[from + part..] == rest
  {
    assert all[from..][part..] == all[from + part..];
  }

  lemma NothingLeft(left: seq<byte>, later: seq<byte>)
    requires |left| == 0
    ensures left + later == later
  {
  }
}
