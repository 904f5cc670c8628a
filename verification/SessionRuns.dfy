/** Whole runs of a session: any sequence of calls, whatever the transport does. */
module SessionRuns {
  import opened Bytes
  import opened Crypto
  import opened Transport
  import opened SessionSpec

  datatype Call = DoSend(data: bytes) | DoRecv(outCap: nat) | DoClose

  datatype World = World(s: Sess, n: Net)

  function Apply(c: Suite, w: World, call: Call): World {
    match call
    case DoSend(data) => var o := Send(c, w.s, w.n, data); World(o.s, o.n)
    case DoRecv(cap) => var o := Recv(c, w.s, w.n, cap); World(o.s, o.n)
    case DoClose => var o := Close(c, w.s, w.n); World(o.s, o.n)
  }

  function Run(c: Suite, w: World, calls: seq<Call>): World
    decreases |calls|
  {
    if calls == [] then w else Run(c, Apply(c, w, calls[0]), calls[1..])
  }

  /** A session as the handshake leaves it. */
  ghost predicate Fresh(s: Sess) {
    s.established && !s.closed && s.log == [] && s.gen == 0 && s.w.seqNo == 0 && s.w.Sized() && s.r.Sized()
  }
}
