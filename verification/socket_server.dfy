/**
  The draft responder of `socket_server.py`: the same handshake as
  `newmain.py`, except that a failed handshake is answered with nothing at
  all, a receive loop that only decodes what arrives, and `handle_data`,
  which routes an add, edit or delete request to the macro store.
 */
module SocketServer {
  import opened Wrappers
  import opened Seqs
  import opened Messages
  import opened Channel
  import opened Settings
  import opened Handshake

  /** A call the server makes on the macro store (`db_manager`), which is not modelled further. */
  datatype DbCall =
    | AddMacro(hotkey: string, actions: string)
    | EditMacro(hotkey: string, actions: string)
    | DeleteMacro(hotkey: string)

  /** The outcome of `handle_data`: a missing key raises, an unknown action does nothing. */
  datatype Handled = MissingKey(key: string) | Called(call: DbCall) | Ignored

  const ACTION := "action"
  const HOTKEY := "hotkey"
  const ACTIONS := "actions"

  /**
    The routing of `handle_data` for a request whose fields are strings:
    "action" and "hotkey" must be present, "actions" defaults to "".
   */
  function Route(data: map<string, string>): (h: Handled)
    ensures h.MissingKey? <==> ACTION !in data || HOTKEY !in data
    ensures h.Called? ==> h.call.hotkey == data[HOTKEY]
    ensures h.Called? && !h.call.DeleteMacro? ==> h.call.actions == if ACTIONS in data then data[ACTIONS] else ""
    ensures h.Called? ==>
      && (h.call.AddMacro? <==> data[ACTION] == "add")
      && (h.call.EditMacro? <==> data[ACTION] == "edit")
      && (h.call.DeleteMacro? <==> data[ACTION] == "delete")
    ensures h.Ignored? <==> ACTION in data && HOTKEY in data && data[ACTION] !in {"add", "edit", "delete"}
  {
    if ACTION !in data then MissingKey(ACTION)
    else if HOTKEY !in data then MissingKey(HOTKEY)
    else
      var action, hotkey := data[ACTION], data[HOTKEY];
      var actions := if ACTIONS in data then data[ACTIONS] else "";
      if action == "add" then Called(AddMacro(hotkey, actions))
      else if action == "edit" then Called(EditMacro(hotkey, actions))
      else if action == "delete" then Called(DeleteMacro(hotkey))
      else Ignored
  }

  /** The request a peer sends to ask for a store call. */
  function RequestFor(call: DbCall): map<string, string> {
    match call
    case AddMacro(h, a) => map[ACTION := "add", HOTKEY := h, ACTIONS := a]
    case EditMacro(h, a) => map[ACTION := "edit", HOTKEY := h, ACTIONS := a]
    case DeleteMacro(h) => map[ACTION := "delete", HOTKEY := h]
  }

  /** Every store call is reached by its request. */
  lemma RouteRoundTrip(call: DbCall)
    ensures Route(RequestFor(call)) == Called(call)
  {
    assert ACTION != HOTKEY && ACTION != ACTIONS && HOTKEY != ACTIONS;
  }

  /** What the receive loop has decoded, whether it stopped at undecodable text, and what it never read. */
  datatype Drained = Drained(decoded: seq<Payload>, malformed: bool, rest: seq<string>)

  /** `Server.main_server_loop` over the chunks still to be received. */
  function Drain(codec: JsonCodec, incoming: seq<string>): Drained
    decreases |incoming|
  {
    var data := Head(incoming);
    if data == "" then Drained([], false, Tail(incoming))
    else
      match codec.loads(data)
      case None => Drained([], true, Tail(incoming))
      case Some(p) =>
        var r := Drain(codec, Tail(incoming));
        Drained([p] + r.decoded, r.malformed, r.rest)
  }

  /** Whatever a sound encoder sends is decoded again, message for message, up to the close. */
  lemma {:induction false} DrainDecodes(codec: JsonCodec, ps: seq<Payload>)
    requires Sound(codec)
    ensures Drain(codec, DumpsAll(codec, ps)) == Drained(ps, false, [])
  {
    var incoming := DumpsAll(codec, ps);
    if ps != [] {
      var head, next := codec.dumps(ps[0]), DumpsAll(codec, ps[1..]);
      assert Head(incoming) == head && Tail(incoming) == next;
      assert codec.loads(head) == Some(ps[0]) && head != "";
      DrainDecodes(codec, ps[1..]);
      assert ps == [ps[0]] + ps[1..];
    }
  }

  class Server {
    /** The calls made on the store, oldest first. */
    var calls: seq<DbCall>

    constructor()
      ensures calls == []
    {
      calls := [];
    }

    /** `handle_data`: one store call for add, edit or delete; nothing for another action. */
    method HandleData(data: map<string, string>) returns (raised: bool)
      modifies this
      ensures raised <==> Route(data).MissingKey?
      ensures calls == old(calls) + match Route(data) case Called(c) => [c] case _ => []
    {
      var h := Route(data);
      raised := h.MissingKey?;
      if h.Called? {
        calls := calls + [h.call];
      }
    }

    /** `Server.main_server_loop`: receive and decode until the peer closes or the text cannot be decoded. */
    method MainServerLoop(conn: Connection, codec: JsonCodec) returns (decoded: seq<Payload>, malformed: bool)
      modifies conn
      ensures Drain(codec, old(conn.incoming)) == Drained(decoded, malformed, conn.incoming)
      ensures conn.sent == old(conn.sent)
    {
      decoded := [];
      while true
        invariant conn.sent == old(conn.sent)
        invariant var r := Drain(codec, conn.incoming);
          Drain(codec, old(conn.incoming)) == Drained(decoded + r.decoded, r.malformed, r.rest)
        decreases |conn.incoming|
      {
        var data := conn.Recv();
        if data == "" {
          malformed := false;
          assert decoded + [] == decoded;
          return;
        }
        var p := codec.loads(data);
        if p.None? {
          malformed := true;
          assert decoded + [] == decoded;
          return;
        }
        Assoc(decoded, [p.value], Drain(codec, conn.incoming).decoded);
        decoded := decoded + [p.value];
      }
    }

    /**
      `Server.handle_connection`: challenge the initiator; on success send the
      success status and run the receive loop; on failure send nothing more.
     */
    method HandleConnection(conn: Connection, cfg: Config) returns (authenticated: bool, decoded: seq<Payload>)
      modifies conn
      ensures |conn.sent| == |old(conn.sent)| + (if authenticated then 2 else 1)
      ensures conn.sent[..|old(conn.sent)|] == old(conn.sent)
      ensures IsChallenge(conn.sent[|old(conn.sent)|])
      ensures authenticated <==> ValidateResponse(cfg, Head(old(conn.incoming)), conn.sent[|old(conn.sent)|])
      ensures authenticated ==> conn.sent[|old(conn.sent)| + 1] == cfg.authSuccess
      ensures authenticated ==>
        var r := Drain(cfg.codec, Tail(old(conn.incoming)));
        decoded == r.decoded && conn.incoming == r.rest
      ensures !authenticated ==> decoded == [] && conn.incoming == Tail(old(conn.incoming))
    {
      var challenge;
      authenticated, challenge := Challenge(conn, cfg);
      decoded := [];
      if authenticated {
        conn.SendAll(cfg.authSuccess);
        var malformed;
        decoded, malformed := MainServerLoop(conn, cfg.codec);
      }
    }
  }
}
