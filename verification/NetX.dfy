/** What the servers see of the NetX Duo stack: one TCP socket and the packets it hands out.

    What arrives is fixed by the list `inbox`; whether an allocation, an append or a send
    succeeds is left open. Every packet is Owned by the application until it is released or
    accepted for sending, and releasing or sending needs it to be Owned, so no packet can be given
    back twice. */
module NetX {
  import opened Common

  datatype Status = Success | NoPacket | Failed

  /** What one call of nx_tcp_socket_receive reports. */
  datatype Event =
    | Arrival(data: seq<byte>, lengthKnown: bool, readable: bool)
    | Empty(linkUp: bool)
    | Broken
  {
    predicate WellFormed() {
      Arrival? ==> data != []
    }

    /** The connection, or the packet, is unusable. */
    predicate Faulty() {
      Broken? || (Arrival? && !(lengthKnown && readable))
    }
  }

  datatype Fate = Owned | Accepted | Released

  datatype Packet = Packet(data: seq<byte>, lengthKnown: bool, readable: bool, fate: Fate)

  /** The bytes that are still to arrive. */
  function DataOf(events: seq<Event>): seq<byte> {
    if events == [] then []
    else (if events[0].Arrival? then events[0].data else []) + DataOf(events[1..])
  }

  /** How many of the calls from the `from`-th up to the `to`-th were waits that brought nothing. */
  ghost function EmptyWaits(events: seq<Event>, from: nat, to: nat): nat
    requires from <= to <= |events|
  {
    if from == to then 0 else EmptyWaits(events, from, to - 1) + if events[to - 1].Empty? then 1 else 0
  }

  lemma {:induction false} EmptyWaitsCounts(events: seq<Event>, from: nat, to: nat)
    requires from <= to <= |events|
    ensures EmptyWaits(events, from, to) == |set i | from <= i < to && events[i].Empty?|
  {
    var waits := set i | from <= i < to && events[i].Empty?;
    if from < to {
      EmptyWaitsCounts(events, from, to - 1);
      var fewer := set i | from <= i < to - 1 && events[i].Empty?;
      assert waits == fewer + if events[to - 1].Empty? then {to - 1} else {};
    }
  }

  lemma {:induction false} EmptyWaitsAdd(events: seq<Event>, from: nat, middle: nat, to: nat)
    requires from <= middle <= to <= |events|
    ensures EmptyWaits(events, from, to) == EmptyWaits(events, from, middle) + EmptyWaits(events, middle, to)
  {
    if middle < to {
      EmptyWaitsAdd(events, from, middle, to - 1);
    }
  }

  const MAX_RETRIES := 5

  /** More than MAX_RETRIES waits in a row were in vain, ending at event `i`. */
  ghost predicate StalledAt(events: seq<Event>, i: nat) {
    MAX_RETRIES <= i < |events| && forall j :: i - MAX_RETRIES <= j <= i ==> events[j].Empty?
  }

  /** The `n` events before `to` were waits in vain. */
  ghost predicate InVain(events: seq<Event>, to: nat, n: nat) {
    n <= to <= |events| && forall j :: to - n <= j < to ==> events[j].Empty?
  }

  lemma NoneInVain(events: seq<Event>, to: nat)
    requires to <= |events|
    ensures InVain(events, to, 0)
  {
  }

  lemma NoneYet(events: seq<Event>, to: nat)
    requires to <= |events|
    ensures InVain(events, to, 0) && EmptyWaits(events, to, to) == 0 && LinkHeld(events, to, to)
  {
  }

  lemma OneMoreInVain(events: seq<Event>, to: nat, n: nat)
    requires InVain(events, to, n) && to < |events| && events[to].Empty?
    ensures InVain(events, to + 1, n + 1)
    ensures n == MAX_RETRIES ==> StalledAt(events, to)
  {
  }

  /** All calls but the last. */
  ghost function Earlier(to: nat): nat {
    if to == 0 then 0 else to - 1
  }

  /** No wait from the `from`-th call up to the `to`-th found the link down. */
  ghost predicate LinkHeld(events: seq<Event>, from: nat, to: nat) {
    forall i :: from <= i < to && i < |events| ==> events[i] != Empty(false)
  }

  lemma LinkHeldAdd(events: seq<Event>, from: nat, middle: nat, to: nat)
    requires LinkHeld(events, from, middle)
    ensures to <= middle + 1 ==> LinkHeld(events, from, Earlier(to))
    ensures LinkHeld(events, middle, Earlier(to)) ==> LinkHeld(events, from, Earlier(to))
    ensures LinkHeld(events, middle, to) ==> LinkHeld(events, from, to)
  {
  }

  /** Every packet can be read, the link stays up, and packets do not keep one waiting too long. */
  ghost predicate Flowing(events: seq<Event>) {
    forall i :: 0 <= i < |events| ==> !events[i].Faulty() && events[i] != Empty(false) && !StalledAt(events, i)
  }

  class Stack {
    /** What the calls to come will report. */
    var inbox: seq<Event>
    /** The same from the beginning: what was reported already, then `inbox`. */
    const arrivals: seq<Event>
    var wire: seq<byte>
    var packets: map<nat, Packet>
    var issued: nat
    /** Some allocation, append or send has failed. */
    var sendFailed: bool

    ghost predicate Valid()
      reads this
    {
      && (forall i :: 0 <= i < |arrivals| ==> arrivals[i].WellFormed())
      && |inbox| <= |arrivals| && inbox == arrivals[|arrivals| - |inbox|..]
      && (forall p :: p in packets ==> p < issued)
    }

    /** How many calls have reported. */
    function Position(): nat
      reads `inbox
    {
      if |inbox| <= |arrivals| then |arrivals| - |inbox| else 0
    }

    /** The last call reported that the connection, or the packet, is unusable. */
    ghost predicate Fault()
      reads `inbox
    {
      0 < Position() && arrivals[Position() - 1].Faulty()
    }

    /** The last call was a wait in vain, with the link down or as one too many in a row since `from`. */
    ghost predicate OutOfPatience(from: nat)
      reads `inbox
    {
      && from < Position()
      && (arrivals[Position() - 1] == Empty(false)
          || (from + MAX_RETRIES < Position() && StalledAt(arrivals, Position() - 1)))
    }

    /** While everything flows, no call gives a reason to stop. */
    lemma FlowingNeverStops()
      requires Flowing(arrivals)
      ensures !Fault() && forall from :: !OutOfPatience(from)
    {
    }

    ghost function Owned(): set<nat>
      reads this`packets
    {
      set p | p in packets && packets[p].fate == Fate.Owned
    }

    constructor (inbox: seq<Event>)
      requires forall i :: 0 <= i < |inbox| ==> inbox[i].WellFormed()
      ensures Valid() && this.inbox == arrivals == inbox && wire == [] && packets == map[] && !sendFailed
    {
      this.inbox, arrivals, wire, packets, issued, sendFailed := inbox, inbox, [], map[], 0, false;
    }

    method Allocate() returns (status: Status, p: nat)
      requires Valid()
      modifies this`packets, this`issued, this`sendFailed
      ensures Valid()
      ensures status != Success ==> packets == old(packets) && sendFailed
      ensures status == Success ==>
                p !in old(packets) && packets == old(packets)[p := Packet([], true, true, Fate.Owned)]
                && sendFailed == old(sendFailed)
    {
      p := issued;
      var ok: bool := *;
      if ok {
        packets := packets[p := Packet([], true, true, Fate.Owned)];
        issued := issued + 1;
        status := Success;
      } else {
        sendFailed := true;
        status := Failed;
      }
    }

    method Append(p: nat, data: seq<byte>) returns (status: Status)
      requires Valid() && p in Owned()
      modifies this`packets, this`sendFailed
      ensures Valid()
      ensures status != Success ==> packets == old(packets) && sendFailed
      ensures status == Success ==>
                packets == old(packets)[p := old(packets[p]).(data := old(packets[p]).data + data)]
                && sendFailed == old(sendFailed)
    {
      var ok: bool := *;
      if ok {
        packets := packets[p := packets[p].(data := packets[p].data + data)];
        status := Success;
      } else {
        sendFailed := true;
        status := Failed;
      }
    }

    /** The packet changes hands only on success. */
    method Send(p: nat) returns (status: Status)
      requires Valid() && p in Owned()
      modifies this`packets, this`wire, this`sendFailed
      ensures Valid()
      ensures status != Success ==> packets == old(packets) && wire == old(wire) && sendFailed
      ensures status == Success ==>
                packets == old(packets)[p := old(packets[p]).(fate := Accepted)]
                && wire == old(wire) + old(packets[p]).data && sendFailed == old(sendFailed)
    {
      var ok: bool := *;
      if ok {
        wire := wire + packets[p].data;
        packets := packets[p := packets[p].(fate := Accepted)];
        status := Success;
      } else {
        sendFailed := true;
        status := Failed;
      }
    }

    method Release(p: nat)
      requires Valid() && p in Owned()
      modifies this`packets
      ensures Valid()
      ensures packets == old(packets)[p := old(packets[p]).(fate := Released)]
      ensures Owned() == old(Owned()) - {p}
    {
      packets := packets[p := packets[p].(fate := Released)];
    }

    /** An exhausted inbox is a closed connection. */
    method Receive() returns (status: Status, p: nat)
      requires Valid()
      modifies this`inbox, this`packets, this`issued
      ensures Valid()
      ensures old(inbox) == [] ==> status == Failed && inbox == []
      ensures old(inbox) != [] ==>
                && inbox == old(inbox)[1..]
                && Position() == old(Position()) + 1 && arrivals[old(Position())] == old(inbox)[0]
      ensures status == Success <==> old(inbox) != [] && old(inbox)[0].Arrival?
      ensures status == NoPacket <==> old(inbox) != [] && old(inbox)[0].Empty?
      ensures status != Success ==> packets == old(packets)
      ensures status == Success ==>
                var e := old(inbox)[0];
                p !in old(packets) && packets == old(packets)[p := Packet(e.data, e.lengthKnown, e.readable, Fate.Owned)]
    {
      p := issued;
      if inbox == [] {
        return Failed, p;
      }
      var e := inbox[0];
      NextOf(arrivals, |inbox|);
      inbox := inbox[1..];
      match e
      case Arrival(data, lengthKnown, readable) =>
        packets := packets[p := Packet(data, lengthKnown, readable, Fate.Owned)];
        issued := issued + 1;
        status := Success;
      case Empty(_) => status := NoPacket;
      case Broken => status := Failed;
    }

    /** Sends a packet, or releases it again. */
    method SendOrRelease(p: nat) returns (status: Status)
      requires Valid() && p in Owned()
      modifies this`packets, this`wire, this`sendFailed
      ensures Valid() && Owned() == old(Owned()) - {p}
      ensures packets.Keys == old(packets).Keys && forall q :: q in packets && q != p ==> packets[q] == old(packets[q])
      ensures status == Success ==> wire == old(wire) + old(packets[p]).data && sendFailed == old(sendFailed)
      ensures status != Success ==> wire == old(wire) && sendFailed
    {
      status := Send(p);
      if status != Success {
        Release(p);
      }
    }

    /** RFB_Send, App_Network_Send_Response and App_Web_Writer_Flush send each packet this way: allocate, append,
        send, and release it again unless it was accepted. Whatever happens, no packet stays behind. */
    method SendPacket(data: seq<byte>) returns (status: Status)
      requires Valid()
      modifies this`packets, this`issued, this`wire, this`sendFailed
      ensures Valid() && Owned() == old(Owned())
      ensures forall p :: p in old(packets) ==> p in packets && packets[p] == old(packets[p])
      ensures forall p :: p in packets && p !in old(packets) ==> packets[p].fate != Fate.Owned
      ensures status == Success ==> wire == old(wire) + data && sendFailed == old(sendFailed)
      ensures status != Success ==> wire == old(wire) && sendFailed
    {
      var p;
      status, p := Allocate();
      if status != Success {
        return;
      }
      status := Append(p, data);
      assert [] + data == data;
      assert Owned() == old(Owned()) + {p};
      if status != Success {
        Release(p);
        return;
      }
      status := SendOrRelease(p);
    }
  }

  lemma NextOf(arrivals: seq<Event>, left: nat)
    requires 0 < left <= |arrivals|
    ensures var inbox := arrivals[|arrivals| - left..];
      inbox[0] == arrivals[|arrivals| - left] && inbox[1..] == arrivals[|arrivals| - (left - 1)..]
  {
  }

  /** nx_packet_data_extract_offset. */
  method CopyOut(data: array<byte>, at: nat, source: seq<byte>, offset: nat, length: nat)
    requires at + length <= data.Length && offset + length <= |source|
    modifies data
    ensures data[..at + length] == old(data[..at]) + source[offset..offset + length]
  {
    ghost var front := data[..at];
    var i := 0;
    while i < length
      invariant i <= length
      invariant forall k :: 0 <= k < at ==> data[k] == front[k]
      invariant forall k :: at <= k < at + i ==> data[k] == source[offset + (k - at)]
    {
      data[at + i] := source[offset + i];
      i := i + 1;
    }
    Joined(data[..at + length], front, source, offset, length);
  }

  lemma Joined(all: seq<byte>, front: seq<byte>, source: seq<byte>, offset: nat, length: nat)
    requires |all| == |front| + length && offset + length <= |source|
    requires forall k :: 0 <= k < |front| ==> all[k] == front[k]
    requires forall k :: |front| <= k < |all| ==> all[k] == source[offset + (k - |front|)]
    ensures all == front + source[offset..offset + length]
  {
  }
}
