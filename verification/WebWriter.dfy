/** The buffered writer of the diagnostics pages (app_netxduo.c): text collected in a fixed buffer and sent a
    buffer at a time. */
module WebWriter {
  import opened Common
  import opened NetX

  class Writer {
    const net: Stack
    const output: array<byte>
    var length: nat
    var status: Status

    ghost predicate Valid()
      reads this, net
    {
      net.Valid() && 0 < output.Length && length <= output.Length
    }

    /** What has been sent and what waits in the buffer. */
    ghost function Written(): seq<byte>
      requires Valid()
      reads this, net, output
    {
      net.wire + output[..length]
    }

    constructor (net: Stack, output: array<byte>)
      requires net.Valid() && 0 < output.Length
      ensures Valid() && this.net == net && this.output == output && status == Success && Written() == net.wire
    {
      this.net, this.output, length, status := net, output, 0, Success;
    }

    /** App_Web_Writer_Flush: a failure is kept, and then nothing more is sent. */
    method Flush() returns (result: Status)
      requires Valid()
      modifies this, net`packets, net`issued, net`wire, net`sendFailed
      ensures Valid() && result == status && net.Owned() == old(net.Owned())
      ensures Written() == old(Written())
      ensures status == Success ==> length == 0 && net.wire == old(Written())
      ensures status != Success ==> length == old(length) && net.wire == old(net.wire)
      ensures old(status) != Success ==> status == old(status)
      ensures old(status) == Success != status ==> net.sendFailed
    {
      assert output[..0] == [];
      if status != Success || length == 0 {
        return status;
      }
      status := net.SendPacket(output[..length]);
      if status == Success {
        length := 0;
      }
      result := status;
    }

    method Put(b: byte)
      requires Valid() && length < output.Length
      modifies this`length, output
      ensures Valid() && length == old(length) + 1 && Written() == old(Written()) + [b]
    {
      ghost var before := Written();
      output[length] := b;
      assert net.wire + output[..length + 1] == before + [b];
      length := length + 1;
    }

    /** App_Web_Append_Text: while nothing fails, all of the text is written, in order, in whatever pieces; nothing is
        sent while there is room in the buffer. */
    method AppendText(text: seq<byte>)
      requires Valid()
      modifies this, output, net`packets, net`issued, net`wire, net`sendFailed
      ensures Valid() && net.Owned() == old(net.Owned())
      ensures status == Success ==> Written() == old(Written()) + text
      ensures status != Success ==> Written() <= old(Written()) + text
      ensures old(status) != Success ==> status == old(status) && Written() == old(Written())
      ensures old(status) == Success != status ==> net.sendFailed
      ensures old(length) + |text| <= output.Length ==> net.wire == old(net.wire) && status == old(status)
    {
      var i := 0;
      assert text[..0] == [];
      while i < |text| && status == Success
        invariant Valid() && i <= |text| && net.Owned() == old(net.Owned())
        invariant Written() == old(Written()) + text[..i]
        invariant old(status) != Success ==> i == 0 && status == old(status)
        invariant old(status) == Success != status ==> net.sendFailed
        invariant old(length) + |text| <= output.Length ==>
                    length == old(length) + i && net.wire == old(net.wire) && status == old(status)
        decreases |text| - i, if status == Success then 1 else 0
      {
        if length >= output.Length {
          var _ := Flush();
        }
        if status == Success {
          Put(text[i]);
          assert text[..i + 1] == text[..i] + [text[i]];
          i := i + 1;
        }
      }
      assert text == text[..i] + text[i..];
    }
  }
}
