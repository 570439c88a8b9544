/**
  The responder of `newmain.py`: it challenges the initiator, answers with a
  status string, then reads messages until the peer closes and performs the
  desktop action each one asks for. Also the helper that turns a
  comma-separated action field into an action list.
 */
module NewMain {
  import opened Wrappers
  import opened Seqs
  import opened Strings
  import opened Messages
  import opened Channel
  import opened Settings
  import opened Handshake
  import opened MacroTree

  /** What `process_received_payload` does with one decoded message. */
  datatype Reaction =
    | Inject(action: Injection)   // one pyautogui call
    | Close                       // "exit": the connection is closed
    | LogOnly                     // "SYNC_MACROS" and any other type: a log line, nothing else

  /** `process_received_payload` once the text has been decoded: dispatch on the "type" field. */
  function ProcessReceivedPayload(p: Payload): (r: Reaction)
    ensures r.Close? <==> p.Exit?
    ensures r.LogOnly? <==> p.SyncMacros? || p.Unknown?
    ensures r.Inject? && r.action.TypeText? <==> p.Text?
    ensures r.Inject? && r.action.PressCombo? <==> p.Keys?
    ensures r.Inject? && r.action.MoveTo? <==> p.MouseMove?
    ensures r.Inject? && r.action.MoveBy? <==> p.MouseMoveRel?
    ensures p.Text? ==> r.Inject? && r.action.text == p.text
    ensures p.Keys? ==> r.Inject? && r.action.keys == p.keys
    ensures p.MouseMove? ==> r.Inject? && r.action.x == p.x && r.action.y == p.y
    ensures p.MouseMoveRel? ==> r.Inject? && r.action.dx == p.dx && r.action.dy == p.dy
  {
    match p
    case SyncMacros(_) => LogOnly
    case Exit => Close
    case Text(t) => Inject(TypeText(t))
    case Keys(ks) => Inject(PressCombo(ks))
    case MouseMove(x, y) => Inject(MoveTo(x, y))
    case MouseMoveRel(dx, dy) => Inject(MoveBy(dx, dy))
    case Unknown(_) => LogOnly
  }

  /** Why the receive loop stopped. */
  datatype LoopEnd =
    | PeerClosed   // `recv` returned the empty string
    | ExitClosed   // an "exit" message closed the connection; the next `recv` raises
    | Malformed    // `json.loads` raised

  /** The actions performed by a session, why it ended, and the chunks never read. */
  datatype Session = Session(performed: seq<Injection>, end: LoopEnd, rest: seq<string>)

  /** `s` after the actions in `done`. */
  function Then(done: seq<Injection>, s: Session): Session {
    Session(done + s.performed, s.end, s.rest)
  }

  /** `main_server_loop` over the chunks still to be received. */
  function Serve(codec: JsonCodec, incoming: seq<string>): Session
    decreases |incoming|
  {
    var data := Head(incoming);
    if data == "" then Session([], PeerClosed, Tail(incoming))
    else
      match codec.loads(data)
      case None => Session([], Malformed, Tail(incoming))
      case Some(p) =>
        match ProcessReceivedPayload(p)
        case Close => Session([], ExitClosed, Tail(incoming))
        case LogOnly => Serve(codec, Tail(incoming))
        case Inject(a) => Then([a], Serve(codec, Tail(incoming)))
  }

  /** `main_server_loop`: receive until the peer closes, dispatching every message in arrival order. */
  method MainServerLoop(conn: Connection, codec: JsonCodec) returns (performed: seq<Injection>, end: LoopEnd)
    modifies conn
    ensures Serve(codec, old(conn.incoming)) == Session(performed, end, conn.incoming)
    ensures conn.sent == old(conn.sent)
  {
    performed := [];
    while true
      invariant conn.sent == old(conn.sent)
      invariant Serve(codec, old(conn.incoming)) == Then(performed, Serve(codec, conn.incoming))
      decreases |conn.incoming|
    {
      var data := conn.Recv();
      if data == "" {
        end := PeerClosed;
        assert performed + [] == performed;
        return;
      }
      var p := codec.loads(data);
      if p.None? {
        end := Malformed;
        assert performed + [] == performed;
        return;
      }
      var reaction := ProcessReceivedPayload(p.value);
      match reaction {
        case Close =>
          end := ExitClosed;
          assert performed + [] == performed;
          return;
        case LogOnly =>
        case Inject(a) =>
          Assoc(performed, [a], Serve(codec, conn.incoming).performed);
          performed := performed + [a];
      }
    }
  }

  /**
    `handle_server_connection`: challenge the initiator, then send the success
    status and run the receive loop, or send the failure status and stop.
   */
  method HandleServerConnection(conn: Connection, cfg: Config) returns (authenticated: bool, performed: seq<Injection>)
    modifies conn
    ensures |conn.sent| == |old(conn.sent)| + 2 && conn.sent[..|old(conn.sent)|] == old(conn.sent)
    ensures IsChallenge(conn.sent[|old(conn.sent)|])
    ensures authenticated <==> ValidateResponse(cfg, Head(old(conn.incoming)), conn.sent[|old(conn.sent)|])
    ensures conn.sent[|old(conn.sent)| + 1] == if authenticated then cfg.authSuccess else cfg.authFailed
    ensures authenticated ==>
      var s := Serve(cfg.codec, Tail(old(conn.incoming)));
      performed == s.performed && conn.incoming == s.rest
    ensures !authenticated ==> performed == [] && conn.incoming == Tail(old(conn.incoming))
  {
    var challenge;
    authenticated, challenge := Challenge(conn, cfg);
    if authenticated {
      conn.SendAll(cfg.authSuccess);
      var end;
      performed, end := MainServerLoop(conn, cfg.codec);
    } else {
      conn.SendAll(cfg.authFailed);
      performed := [];
    }
  }

  /** The actions a list of messages asks for, in order. */
  function Performed(ps: seq<Payload>): seq<Injection> {
    if ps == [] then []
    else
      (match ProcessReceivedPayload(ps[0]) case Inject(a) => [a] case _ => [])
      + Performed(ps[1..])
  }

  /** Messages without "exit" are all read and performed, in order; what follows is served next. */
  lemma {:induction false} ServeStream(codec: JsonCodec, ps: seq<Payload>, tail: seq<string>)
    requires Sound(codec)
    requires forall i :: 0 <= i < |ps| ==> !ps[i].Exit?
    ensures Serve(codec, DumpsAll(codec, ps) + tail) == Then(Performed(ps), Serve(codec, tail))
  {
    if ps == [] {
      assert DumpsAll(codec, ps) + tail == tail;
    } else {
      var incoming := DumpsAll(codec, ps) + tail;
      var head, next := codec.dumps(ps[0]), DumpsAll(codec, ps[1..]) + tail;
      assert incoming == [head] + next;
      assert Head(incoming) == head && Tail(incoming) == next;
      assert codec.loads(head) == Some(ps[0]) && head != "";
      ServeStream(codec, ps[1..], tail);
      var rest := Serve(codec, tail);
      match ProcessReceivedPayload(ps[0])
      case Inject(a) =>
        assert Serve(codec, incoming) == Then([a], Serve(codec, next));
        assert Performed(ps) == [a] + Performed(ps[1..]);
        Assoc([a], Performed(ps[1..]), rest.performed);
      case LogOnly =>
        assert Serve(codec, incoming) == Serve(codec, next);
        assert Performed(ps) == Performed(ps[1..]);
    }
  }

  /** An "exit" message ends the session: what was sent before it is performed, nothing after it is read. */
  lemma ServeStopsAtExit(codec: JsonCodec, ps: seq<Payload>, more: seq<Payload>, tail: seq<string>)
    requires Sound(codec)
    requires forall i :: 0 <= i < |ps| ==> !ps[i].Exit?
    ensures Serve(codec, DumpsAll(codec, ps + [Exit] + more) + tail)
      == Session(Performed(ps), ExitClosed, DumpsAll(codec, more) + tail)
  {
    DumpsAllAppend(codec, ps + [Exit], more);
    DumpsAllAppend(codec, ps, [Exit]);
    var after := [codec.dumps(Exit)] + (DumpsAll(codec, more) + tail);
    assert DumpsAll(codec, [Exit]) == [codec.dumps(Exit)];
    assert DumpsAll(codec, ps + [Exit] + more) + tail == DumpsAll(codec, ps) + after;
    ServeStream(codec, ps, after);
    assert Head(after) == codec.dumps(Exit) && Tail(after) == DumpsAll(codec, more) + tail;
    assert Performed(ps) + [] == Performed(ps);
  }

  /** An action list without "EXIT:" commands produces no "exit" message. */
  lemma {:induction false} EncodeAllWithoutExit(commands: seq<string>)
    requires forall i :: 0 <= i < |commands| ==> !StartsWith(commands[i], EXIT_PREFIX)
    ensures forall i :: 0 <= i < |EncodeAll(commands)| ==> !EncodeAll(commands)[i].Exit?
  {
    if commands != [] {
      EncodeAllWithoutExit(commands[1..]);
    }
  }

  /**
    What the initiator sends for a list of action strings, the responder
    performs in full and then waits for the peer to close.
   */
  lemma ServeCommands(codec: JsonCodec, commands: seq<string>)
    requires Sound(codec)
    requires forall i :: 0 <= i < |commands| ==> !StartsWith(commands[i], EXIT_PREFIX)
    ensures Serve(codec, Wire(codec, commands)) == Session(Performed(EncodeAll(commands)), PeerClosed, [])
  {
    EncodeAllWithoutExit(commands);
    ServeStream(codec, EncodeAll(commands), []);
    assert Wire(codec, commands) + [] == Wire(codec, commands);
    assert Performed(EncodeAll(commands)) + [] == Performed(EncodeAll(commands));
  }

  /** A "TEXT:" action sent by the client is typed by the responder, stripped. */
  lemma ServeTextCommand(codec: JsonCodec, s: string)
    requires Sound(codec)
    ensures Serve(codec, Wire(codec, [TEXT_PREFIX + s])) == Session([TypeText(Strip(s))], PeerClosed, [])
  {
    var command := TEXT_PREFIX + s;
    assert command[0] != EXIT_PREFIX[0];
    ServeCommands(codec, [command]);
    EncodeCommandByPrefix(s);
    assert EncodeAll([command]) == [Text(Strip(s))];
  }

  /** A "KEYS:" action sent by the client is pressed by the responder as one combination. */
  lemma ServeKeysCommand(codec: JsonCodec, s: string)
    requires Sound(codec)
    ensures Serve(codec, Wire(codec, [KEYS_PREFIX + s])) == Session([PressCombo(Split(Strip(s), '+'))], PeerClosed, [])
  {
    var command := KEYS_PREFIX + s;
    assert command[0] != EXIT_PREFIX[0];
    ServeCommands(codec, [command]);
    EncodeCommandByPrefix(s);
    assert EncodeAll([command]) == [Keys(Split(Strip(s), '+'))];
  }

  /** `create_actions_from_string`: the comma-separated fields, each stripped. */
  function CreateActionsFromString(action: string): (actions: seq<string>)
    ensures |actions| == Count(action, ',') + 1
    ensures forall i :: 0 <= i < |actions| ==> IsStripped(actions[i])
    ensures |actions| == |Split(action, ',')|
    ensures forall i :: 0 <= i < |actions| ==> actions[i] == Strip(Split(action, ',')[i])
  {
    var parts := Split(action, ',');
    SplitCount(action, ',');
    seq(|parts|, i requires 0 <= i < |parts| => Strip(parts[i]))
  }

  /** Joining stripped actions that hold no comma and splitting them again gives them back. */
  lemma CreateActionsRoundTrip(actions: seq<string>)
    requires |actions| >= 1
    requires forall i :: 0 <= i < |actions| ==> IsStripped(actions[i]) && ',' !in actions[i]
    ensures CreateActionsFromString(Join(actions, ',')) == actions
  {
    SplitJoin(actions, ',');
    forall i | 0 <= i < |actions| ensures Strip(actions[i]) == actions[i] {
      StripFixpoint(actions[i]);
    }
  }

  /**
    A change recorded by the macro store's transaction log: `operation`, the
    (new) `hotkey`, its `actions` and, for an edit, the `old_hotkey`. The
    operation is read with `.get`, so it may be missing.
   */
  datatype Transaction = Transaction(operation: Option<string>, hotkey: string, actions: seq<string>, oldHotkey: string)

  /** The tree rows after `App.update` applies one transaction. */
  function Applied(rows: seq<Item>, t: Transaction, iid: nat): seq<Item> {
    if t.operation == Some("add") then Inserted(rows, t.hotkey, t.actions, iid)
    else if t.operation == Some("edit") then Edited(rows, t.oldHotkey, t.hotkey, t.actions)
    else if t.operation == Some("delete") then Deleted(rows, t.hotkey)
    else rows
  }

  /**
    Applying transactions keeps every macro shown once, provided an edit does
    not rename onto a macro shown on another row.
   */
  lemma AppliedUnique(rows: seq<Item>, t: Transaction, iid: nat)
    requires UniqueMacros(rows)
    requires t.operation == Some("edit") && t.hotkey != t.oldHotkey ==> FirstMatch(rows, t.hotkey).None?
    ensures UniqueMacros(Applied(rows, t, iid))
    ensures t.operation == Some("add") ==> FirstMatch(Applied(rows, t, iid), t.hotkey).Some?
    ensures t.operation == Some("delete") ==> FirstMatch(Applied(rows, t, iid), t.hotkey).None?
  {
    if t.operation == Some("add") {
      InsertedUnique(rows, t.hotkey, t.actions, iid);
    } else if t.operation == Some("edit") {
      EditedUnique(rows, t.oldHotkey, t.hotkey, t.actions);
    } else if t.operation == Some("delete") {
      DeletedGone(rows, t.hotkey);
    }
  }

  /** The transactions a log holds; `None` (no log available) holds none. */
  function Pending(log: Option<seq<Transaction>>): seq<Transaction> {
    match log
    case None => []
    case Some(ts) => ts
  }

  /** Every batch handed over, one after the other. */
  function Flatten(batches: seq<seq<Transaction>>): seq<Transaction> {
    if batches == [] then [] else Flatten(batches[..|batches| - 1]) + batches[|batches| - 1]
  }

  /** The log and the handed-over batches after `check_and_send_db_transactions`. */
  function Flush(log: Option<seq<Transaction>>, outbox: seq<seq<Transaction>>): (Option<seq<Transaction>>, seq<seq<Transaction>>) {
    match log
    case Some(ts) => if ts != [] then (Some([]), outbox + [ts]) else (log, outbox)
    case None => (log, outbox)
  }

  /** Flushing loses and duplicates nothing: handed over then pending is what it was before. */
  lemma FlushConserves(log: Option<seq<Transaction>>, outbox: seq<seq<Transaction>>)
    ensures var (log', outbox') := Flush(log, outbox);
      Flatten(outbox') + Pending(log') == Flatten(outbox) + Pending(log)
  {
    var (log', outbox') := Flush(log, outbox);
    if log.Some? && log.value != [] {
      assert outbox'[..|outbox'| - 1] == outbox;
      assert Flatten(outbox') + [] == Flatten(outbox) + log.value;
    }
  }

  /** A second flush right after the first hands nothing over. */
  lemma FlushIdempotent(log: Option<seq<Transaction>>, outbox: seq<seq<Transaction>>)
    ensures var (log', outbox') := Flush(log, outbox);
      Flush(log', outbox') == (log', outbox')
  {
  }

  /** The application's state that the macro operations touch. */
  class App {
    /** `self.macro_tree` */
    const tree: MacroActionTree
    /** What `db_manager.get_all_transactions()` returns; `clear_transactions()` empties it. */
    var log: Option<seq<Transaction>>
    /** The batches handed to `service_to_run.create_db_sync_payload_and_send`, oldest first. */
    var outbox: seq<seq<Transaction>>

    constructor(tree: MacroActionTree, log: Option<seq<Transaction>>)
      ensures this.tree == tree && this.log == log && outbox == []
    {
      this.tree := tree;
      this.log := log;
      outbox := [];
    }

    /** `update`: route an incoming transaction to the tree by its operation. */
    method Update(t: Transaction)
      requires tree.Valid()
      modifies tree
      ensures tree.Valid()
      ensures tree.rows == Applied(old(tree.rows), t, old(tree.nextId))
      ensures tree.nextId == if t.operation == Some("add") && FirstMatch(old(tree.rows), t.hotkey).None? then old(tree.nextId) + 1 else old(tree.nextId)
      ensures tree.selection == if t.operation == Some("delete") then SelectionAfterDelete(old(tree.rows), t.hotkey, old(tree.selection)) else old(tree.selection)
    {
      if t.operation == Some("add") {
        tree.Insert(t.hotkey, t.actions);
      } else if t.operation == Some("edit") {
        tree.EditByMacro(t.oldHotkey, t.hotkey, t.actions);
      } else if t.operation == Some("delete") {
        tree.DeleteByMacro(t.hotkey);
      }
    }

    /** `check_and_send_db_transactions`: hand a non-empty log over, then clear it. */
    method CheckAndSendDbTransactions()
      modifies this
      ensures (log, outbox) == Flush(old(log), old(outbox))
    {
      var transactions := log;
      if transactions.Some? {
        if transactions.value != [] {
          outbox := outbox + [transactions.value];
          log := Some([]);
        }
      }
    }
  }
}
