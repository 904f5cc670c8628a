/** The caller's I/O callbacks: an in-order byte stream each way. */
module Transport {
  import opened Bytes

  /**
   * What the callbacks will do: the input still to be delivered, the output taken so far, and
   * whether each further send succeeds (none does once the list is used up).
   */
  datatype Net = Net(inp: bytes, out: bytes, sends: seq<bool>) {
    predicate CanSend() { sends != [] && sends[0] }

    function Sent(data: bytes): Net {
      Net(inp, if CanSend() then out + data else out, if sends == [] then [] else sends[1..])
    }
  }

  class Pipe {
    var inp: bytes
    var out: bytes
    var sends: seq<bool>

    function State(): Net
      reads this
    {
      Net(inp, out, sends)
    }

    /** Deliver between 1 and `n` octets, as many as the transport likes; 0 at the end of input. */
    method Recv(buf: array<byte>, off: nat, n: nat) returns (r: nat)
      requires off + n <= buf.Length && n > 0
      modifies this`inp, buf
      ensures r == 0 <==> old(inp) == []
      ensures r <= n && r <= |old(inp)|
      ensures inp == old(inp)[r..]
      ensures forall i :: 0 <= i < buf.Length ==>
                buf[i] == if off <= i < off + r then old(inp)[i - off] else old(buf[i])
    {
      if inp == [] {
        return 0;
      }
      r :| 1 <= r <= n && r <= |inp|;
      forall i | 0 <= i < r {
        buf[off + i] := inp[i];
      }
      inp := inp[r..];
    }

    /** Hand `data` to the transport; `ok` says that all of it was taken. */
    method Send(data: bytes) returns (ok: bool)
      modifies this`out, this`sends
      ensures ok == old(State()).CanSend()
      ensures State() == old(State()).Sent(data)
    {
      ok := sends != [] && sends[0];
      if ok {
        out := out + data;
      }
      sends := if sends == [] then [] else sends[1..];
    }
  }
}
