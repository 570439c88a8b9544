/**
  A connected TCP socket as the program sees it: `recv` returns the next
  chunk the peer sent, or the empty string once the peer has closed (or,
  here, once the chunks given to the model run out); `sendall` sends a
  whole string. Each chunk is taken to be exactly one message of the peer.
 */
module Channel {

  class Connection {
    /** The chunks successive `recv` calls return, in order. */
    var incoming: seq<string>
    /** Everything sent so far, one element per `sendall`. */
    var sent: seq<string>

    constructor(incoming: seq<string>)
      ensures this.incoming == incoming && sent == []
    {
      this.incoming := incoming;
      sent := [];
    }

    /** `sock.recv(BUFFER_SIZE).decode()` */
    method Recv() returns (data: string)
      modifies this
      ensures data == Head(old(incoming))
      ensures incoming == Tail(old(incoming))
      ensures sent == old(sent)
    {
      if incoming == [] {
        data := "";
      } else {
        data := incoming[0];
        incoming := incoming[1..];
      }
    }

    /** `sock.sendall(data.encode())` */
    method SendAll(data: string)
      modifies this
      ensures sent == old(sent) + [data]
      ensures incoming == old(incoming)
    {
      sent := sent + [data];
    }
  }

  /** What the next `recv` returns: the first chunk, or "" for a closed peer. */
  function Head(chunks: seq<string>): string {
    if chunks == [] then "" else chunks[0]
  }

  /** The chunks left after one `recv`. */
  function Tail(chunks: seq<string>): (rest: seq<string>)
    ensures |rest| == if chunks == [] then 0 else |chunks| - 1
  {
    if chunks == [] then [] else chunks[1..]
  }
}
