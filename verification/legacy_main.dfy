/**
  The single-file master/slave program of `main.py`. The master
  authenticates to the slave, sends it the whole macro table, then polls the
  hotkeys and sends the commands of every one that fires, re-sending the
  table whenever the window changed it. The slave performs what it receives
  and rewrites its table on every table message. The window's list box
  shows one line per macro, and the add, edit and delete buttons act on
  the table and the settings store together.
 */
module LegacyMain {
  import opened Wrappers
  import opened Seqs
  import opened Strings
  import opened PyDict
  import opened Messages
  import opened Channel
  import opened Settings
  import opened Handshake
  import opened Hotkey
  import opened MacroTable
  import opened SocketClient
  import opened LegacyTable
  import NewMain

  /** The handshake settings of this program; SHA-256 and JSON are given. */
  function LegacyConfig(sha: string -> string, codec: JsonCodec): Config {
    Config(SHARED_SECRET, AUTH_SUCCESS, AUTH_FAILED, sha, codec)
  }

  /** What `listen_for_data` does with one decoded message. */
  datatype Dispatched =
    | Perform(action: Injection)                          // one pyautogui call
    | Store(received: seq<(string, seq<string>)>)         // `sync_macros_to_db`
    | Stop                                                // "exit": leave the loop
    | Skip                                                // another "type": no branch matches
    | Raise                                               // no "type" field: `KeyError`

  /**
    The `if`/`elif` chain on `payload["type"]`. Every message the responder
    of `newmain.py` turns into a desktop action is performed the same way here.
   */
  function Dispatch(p: Payload): (r: Dispatched)
    ensures r.Stop? <==> p.Exit?
    ensures r.Store? <==> p.SyncMacros?
    ensures r.Store? ==> r.received == p.macros
    ensures r.Raise? <==> p == Unknown(None)
    ensures r.Skip? <==> p.Unknown? && p.kind.Some?
    ensures r.Perform? <==> NewMain.ProcessReceivedPayload(p).Inject?
    ensures r.Perform? ==> NewMain.ProcessReceivedPayload(p) == NewMain.Inject(r.action)
  {
    match p
    case SyncMacros(m) => Store(m)
    case Exit => Stop
    case Text(t) => Perform(TypeText(t))
    case Keys(ks) => Perform(PressCombo(ks))
    case MouseMove(x, y) => Perform(MoveTo(x, y))
    case MouseMoveRel(dx, dy) => Perform(MoveBy(dx, dy))
    case Unknown(kind) => if kind.None? then Raise else Skip
  }

  /** Why the slave's receive loop stopped. */
  datatype LegacyEnd =
    | ConnectionLost   // `recv` returned the empty string
    | Exited           // an "exit" message
    | Undecodable      // `json.loads` raised
    | MissingType      // `payload["type"]` raised

  /** The actions a slave session performed, its table afterwards, why it ended, and the chunks never read. */
  datatype SlaveSession = SlaveSession(performed: seq<Injection>, db: Table, end: LegacyEnd, rest: seq<string>)

  /** `s` after the actions in `done`. */
  function After(done: seq<Injection>, s: SlaveSession): SlaveSession {
    SlaveSession(done + s.performed, s.db, s.end, s.rest)
  }

  /** The `while True` loop of `listen_for_data` over the chunks still to be received, from the table `db`. */
  function SlaveServe(codec: JsonCodec, incoming: seq<string>, db: Table): (s: SlaveSession)
    requires db.Valid()
    ensures s.db.Valid()
    decreases |incoming|
  {
    var data := Head(incoming);
    if data == "" then SlaveSession([], db, ConnectionLost, Tail(incoming))
    else
      match codec.loads(data)
      case None => SlaveSession([], db, Undecodable, Tail(incoming))
      case Some(p) =>
        match Dispatch(p)
        case Stop => SlaveSession([], db, Exited, Tail(incoming))
        case Raise => SlaveSession([], db, MissingType, Tail(incoming))
        case Skip => SlaveServe(codec, Tail(incoming), db)
        case Store(received) => SlaveServe(codec, Tail(incoming), SyncRows(Empty(), received))
        case Perform(a) => After([a], SlaveServe(codec, Tail(incoming), db))
  }

  /** A message the slave acts on without leaving the loop or touching its table. */
  predicate Plain(p: Payload) {
    Dispatch(p).Perform? || Dispatch(p).Skip?
  }

  /**
    Plain messages are all read and performed in order, exactly as the
    responder of `newmain.py` performs them, and the table is left alone.
   */
  lemma {:induction false} SlaveServeStream(codec: JsonCodec, ps: seq<Payload>, tail: seq<string>, db: Table)
    requires Sound(codec) && db.Valid()
    requires forall i :: 0 <= i < |ps| ==> Plain(ps[i])
    ensures SlaveServe(codec, DumpsAll(codec, ps) + tail, db) == After(NewMain.Performed(ps), SlaveServe(codec, tail, db))
  {
    if ps == [] {
      assert DumpsAll(codec, ps) + tail == tail;
    } else {
      var incoming := DumpsAll(codec, ps) + tail;
      var head, next := codec.dumps(ps[0]), DumpsAll(codec, ps[1..]) + tail;
      assert incoming == [head] + next;
      assert Head(incoming) == head && Tail(incoming) == next;
      assert codec.loads(head) == Some(ps[0]) && head != "";
      assert Plain(ps[0]);
      SlaveServeStream(codec, ps[1..], tail, db);
      var rest := SlaveServe(codec, tail, db);
      match Dispatch(ps[0])
      case Perform(a) =>
        assert SlaveServe(codec, incoming, db) == After([a], SlaveServe(codec, next, db));
        assert NewMain.Performed(ps) == [a] + NewMain.Performed(ps[1..]);
        Assoc([a], NewMain.Performed(ps[1..]), rest.performed);
      case Skip =>
        assert SlaveServe(codec, incoming, db) == SlaveServe(codec, next, db);
        assert NewMain.Performed(ps) == NewMain.Performed(ps[1..]);
    }
  }

  /** An "exit" message ends the session: what came before it is performed, nothing after it is read. */
  lemma {:induction false} SlaveStopsAtExit(codec: JsonCodec, ps: seq<Payload>, more: seq<Payload>, tail: seq<string>, db: Table)
    requires Sound(codec) && db.Valid()
    requires forall i :: 0 <= i < |ps| ==> Plain(ps[i])
    ensures SlaveServe(codec, DumpsAll(codec, ps + [Exit] + more) + tail, db)
      == SlaveSession(NewMain.Performed(ps), db, Exited, DumpsAll(codec, more) + tail)
  {
    DumpsAllAppend(codec, ps + [Exit], more);
    DumpsAllAppend(codec, ps, [Exit]);
    var after := [codec.dumps(Exit)] + (DumpsAll(codec, more) + tail);
    assert DumpsAll(codec, [Exit]) == [codec.dumps(Exit)];
    assert DumpsAll(codec, ps + [Exit] + more) + tail == DumpsAll(codec, ps) + after;
    SlaveServeStream(codec, ps, after, db);
    assert Head(after) == codec.dumps(Exit) && Tail(after) == DumpsAll(codec, more) + tail;
    assert NewMain.Performed(ps) + [] == NewMain.Performed(ps);
  }

  /** A table message replaces the slave's table by the received one, whatever it held. */
  lemma {:induction false} SlaveStoresTable(codec: JsonCodec, received: seq<(string, seq<string>)>, tail: seq<string>, db: Table)
    requires Sound(codec) && db.Valid()
    ensures SlaveServe(codec, [codec.dumps(SyncMacros(received))] + tail, db)
      == SlaveServe(codec, tail, SyncRows(Empty(), received))
  {
    var incoming := [codec.dumps(SyncMacros(received))] + tail;
    assert Head(incoming) == codec.dumps(SyncMacros(received)) && Tail(incoming) == tail;
  }

  /**
    `sync_macros_to_db` deletes every row first, so the table then holds
    exactly the received hotkeys, each with its actions joined by commas.
   */
  lemma {:induction false} SyncedTable(received: seq<(string, seq<string>)>)
    requires DistinctKeys(received)
    ensures var db := SyncRows(Empty(), received);
      && db.items.Keys == Hotkeys(received)
      && forall i :: 0 <= i < |received| ==> received[i].0 in db.items && db.items[received[i].0] == Join(received[i].1, ',')
  {
    var db := SyncRows(Empty(), received);
    assert db.items.Keys == Hotkeys(received) by {
      SyncRowsKeys(Empty(), received);
    }
    forall i | 0 <= i < |received| ensures received[i].0 in db.items && db.items[received[i].0] == Join(received[i].1, ',') {
      SyncRowsValues(Empty(), received, i);
    }
  }

  /** Action strings produce only the messages "exit", "text" and "keys". */
  lemma {:induction false} EncodeAllKinds(commands: seq<string>)
    ensures forall i :: 0 <= i < |EncodeAll(commands)| ==> EncodeAll(commands)[i].Exit? || EncodeAll(commands)[i].Text? || EncodeAll(commands)[i].Keys?
  {
    if commands != [] {
      EncodeAllKinds(commands[1..]);
    }
  }

  /**
    What the master sends after the handshake (its table, then the commands
    of the hotkeys that fired) leaves the slave with the master's hotkeys in
    its table and every command performed, when no command is "EXIT:".
   */
  lemma {:induction false} SlaveFollowsMaster(codec: JsonCodec, macros: Macros, commands: seq<string>, db: Table)
    requires Sound(codec) && macros.Valid() && db.Valid()
    requires forall i :: 0 <= i < |commands| ==> !StartsWith(commands[i], EXIT_PREFIX)
    ensures var s := SlaveServe(codec, [codec.dumps(SyncMacros(macros.Items()))] + Wire(codec, commands), db);
      && s.db.items.Keys == macros.items.Keys
      && s.performed == NewMain.Performed(EncodeAll(commands))
      && s.end == ConnectionLost && s.rest == []
  {
    var synced := SyncRows(Empty(), macros.Items());
    SlaveStoresTable(codec, macros.Items(), Wire(codec, commands), db);
    ItemsHotkeys(macros);
    SyncedTable(macros.Items());
    var ps := EncodeAll(commands);
    EncodeAllKinds(commands);
    NewMain.EncodeAllWithoutExit(commands);
    SlaveServeStream(codec, ps, [], synced);
    assert Wire(codec, commands) + [] == Wire(codec, commands);
    assert NewMain.Performed(ps) + [] == NewMain.Performed(ps);
  }

  /** Every macro has an action, and no hotkey or first action holds ", " or ": ". */
  ghost predicate Listed(macros: Macros) {
    forall h :: h in macros.items ==> macros.items[h] != [] && Listable(h) && Listable(macros.items[h][0])
  }

  /** The list box shows the table as `load_macros_into_listbox` last drew it. */
  ghost predicate Synced(lines: seq<string>, macros: Macros) {
    macros.Valid() && Listed(macros) && lines == Listing(macros)
  }

  /** Every line of the list box is read back as its macro's hotkey and first action, by either parse. */
  lemma {:induction false} ListingParses(macros: Macros, i: nat)
    requires macros.Valid() && Listed(macros) && i < |macros.order|
    ensures var h := macros.order[i];
      && EditParse(Listing(macros)[i]) == Some((h, macros.items[h][0]))
      && DeleteParse(Listing(macros)[i]) == Some(h)
  {
    var h := macros.order[i];
    assert h in macros.items;
    EditParseRoundTrip(h, macros.items[h]);
    DeleteParseRoundTrip(h, macros.items[h]);
  }

  /** What `Rename` needs of the values: lists stay non-empty and agreement is kept. */
  lemma RenameKeeps(db: Table, macros: Macros, existing: string, newHotkey: string, newAction: string)
    requires db.Valid() && macros.Valid() && ActionsPresent(macros) && existing in macros.items
    ensures ActionsPresent(macros.Remove(existing).Put(newHotkey, [newAction]))
    ensures Agree(db, macros) ==> Agree(EditRows(db, existing, newHotkey, newAction), macros.Remove(existing).Put(newHotkey, [newAction]))
  {
    if Agree(db, macros) {
      EditAgrees(db, macros, existing, newHotkey, newAction);
    }
  }

  /** What `DeleteMacro` needs of the values: removal keeps both valid, lists non-empty and agreement. */
  lemma RemoveKeeps(db: Table, macros: Macros, hotkey: string)
    requires db.Valid() && macros.Valid() && ActionsPresent(macros)
    ensures db.Remove(hotkey).Valid() && ActionsPresent(macros.Remove(hotkey))
    ensures hotkey !in macros.items ==> macros.Remove(hotkey) == macros
    ensures Agree(db, macros) ==> Agree(db.Remove(hotkey), macros.Remove(hotkey))
  {
    RemoveValid(db, hotkey);
    if hotkey !in macros.items {
      RemoveAbsent(macros, hotkey);
    }
  }

  /** A dialog answer Python treats as true: given and not empty. */
  predicate Truthy(answer: Option<string>) {
    answer.Some? && answer.value != ""
  }

  /** How a button of the window ended. */
  datatype Outcome =
    | NoSelection   // "No macro selected!"
    | Declined      // the deletion was not confirmed
    | Unparsable    // the list-box line could not be read back (the source raises)
    | Cancelled     // a dialog was cancelled or left empty
    | NotFound      // the hotkey read back is not in `MACROS`
    | Done

  /**
    The `while True` loop of `send_data_to_slave` for the given rounds: at
    the top of a round, send `table` when the flag is set and clear it, then
    one pass over the hotkeys. Returns the flag afterwards; nothing else
    sets it while the loop runs.
   */
  method PollRounds(client: Client, rounds: seq<Round>, table: string, flag: bool) returns (flagAfter: bool)
    requires client.manager.Valid() && Fits(rounds, |client.manager.macros.order|)
    modifies client.ledger, client.conn
    ensures var r := RunRounds(old(client.ledger.times), client.manager.macros.Items(), rounds);
      && client.conn.sent == old(client.conn.sent) + (if flag && rounds != [] then [table] else []) + Wire(client.cfg.codec, r.fired)
      && client.ledger.times == r.times
    ensures flagAfter == (flag && rounds == [])
    ensures client.conn.incoming == old(client.conn.incoming)
  {
    var conn, ledger, codec := client.conn, client.ledger, client.cfg.codec;
    ghost var snapshot := client.manager.macros.Items();
    ghost var times0, base := ledger.times, conn.sent;
    ghost var extra := if flag then [table] else [];
    ghost var prefix := base;
    flagAfter := flag;
    var n := 0;
    while n < |rounds|
      invariant 0 <= n <= |rounds|
      invariant conn.incoming == old(conn.incoming)
      invariant flagAfter == (flag && n == 0)
      invariant prefix == if n > 0 then base + extra else base
      invariant var done := RunRounds(times0, snapshot, rounds[..n]);
        conn.sent == prefix + Wire(codec, done.fired) && ledger.times == done.times
    {
      ghost var done := RunRounds(times0, snapshot, rounds[..n]);
      if flagAfter {
        assert rounds[..n] == [];
        conn.SendAll(table);
        flagAfter := false;
      }
      prefix := base + extra;
      assert conn.sent == prefix + Wire(codec, done.fired);
      ghost var final := PollCycle(Record(done.times, rounds[n].presses), snapshot, rounds[n].clock);
      RunRoundsPrefix(times0, snapshot, rounds, n);
      WireAppend(codec, done.fired, final.fired);
      Assoc(prefix, Wire(codec, done.fired), Wire(codec, final.fired));
      client.PlayRound(rounds[n]);
      n := n + 1;
    }
    TakeAll(rounds);
  }

  /** The program's shared state: `MACROS`, `key_press_times`, the settings store, the update flag and the list box. */
  class LegacyPeer {
    /** Holds `MACROS`. */
    const manager: MacroManager
    /** `key_press_times` */
    const ledger: KeyLedger
    /** The `macros` table of the store. */
    var db: Table
    /** `is_macros_updated` */
    var updated: bool
    /** The lines of `macro_listbox`. */
    var listbox: seq<string>

    ghost predicate Valid()
      reads this, manager
    {
      manager.Valid() && db.Valid() && ActionsPresent(manager.macros)
    }

    /**
      The module-level state before the main block runs: `MACROS` as its
      literal sets it (`InitialMacros()`), no key presses, no flag, an empty
      list box, over the table the store already holds.
     */
    constructor(macros: Macros, db: Table)
      requires macros.Valid() && ActionsPresent(macros) && db.Valid()
      ensures Valid() && fresh(manager) && fresh(ledger)
      ensures manager.macros == macros && ledger.times == map[]
      ensures this.db == db && !updated && listbox == []
    {
      manager := new MacroManager();
      ledger := new KeyLedger();
      this.db := db;
      updated := false;
      listbox := [];
      new;
      manager.macros := macros;
    }

    /** `load_macros_from_db`: every stored row overwrites its hotkey with its comma-separated fields. */
    method LoadMacrosFromDb()
      requires Valid()
      modifies manager
      ensures Valid()
      ensures manager.macros == LoadRows(old(manager.macros), db.Items())
    {
      var rows := db.Items();
      ghost var start := manager.macros;
      var i := 0;
      while i < |rows|
        invariant 0 <= i <= |rows|
        invariant manager.Valid()
        invariant manager.macros == LoadRows(start, rows[..i])
      {
        TakeNext(rows, i);
        assert rows[..i + 1][..i] == rows[..i];
        manager.AddActions(rows[i].0, Split(rows[i].1, ','));
        i := i + 1;
      }
      TakeAll(rows);
      LoadedActionsPresent(start, db);
    }

    /** `load_macros_into_listbox`: one line per macro, in table order. */
    method LoadMacrosIntoListbox()
      requires Valid()
      modifies this
      ensures listbox == Listing(manager.macros)
      ensures db == old(db) && updated == old(updated)
    {
      var d := manager.macros;
      var lines := [];
      var i := 0;
      while i < |d.order|
        invariant 0 <= i <= |d.order|
        invariant lines == Listing(d)[..i]
        invariant db == old(db) && updated == old(updated)
      {
        TakeNext(Listing(d), i);
        lines := lines + [ListEntry(d.order[i], d.items[d.order[i]])];
        i := i + 1;
      }
      TakeAll(Listing(d));
      listbox := lines;
    }

    /** The main block after `initialize_db`: load the stored rows, then draw the list box. */
    method Start()
      requires Valid()
      modifies this, manager
      ensures Valid()
      ensures manager.macros == LoadRows(old(manager.macros), db.Items())
      ensures listbox == Listing(manager.macros)
      ensures db == old(db) && updated == old(updated)
    {
      LoadMacrosFromDb();
      LoadMacrosIntoListbox();
    }

    /** `sync_macros_to_db`: delete every row, then write each received hotkey with its actions joined by commas. */
    method SyncMacrosToDb(received: seq<(string, seq<string>)>)
      requires Valid()
      modifies this
      ensures Valid()
      ensures db == SyncRows(Empty(), received)
      ensures updated == old(updated) && listbox == old(listbox)
    {
      db := Empty();
      var i := 0;
      while i < |received|
        invariant 0 <= i <= |received|
        invariant db == SyncRows(Empty(), received[..i])
        invariant updated == old(updated) && listbox == old(listbox)
      {
        TakeNext(received, i);
        assert received[..i + 1][..i] == received[..i];
        db := Upsert(db, received[i].0, Join(received[i].1, ','));
        i := i + 1;
      }
      TakeAll(received);
    }

    /** The `while True` loop of `listen_for_data`: receive, decode and dispatch until it stops. */
    method ReceiveLoop(conn: Connection, codec: JsonCodec) returns (performed: seq<Injection>, end: LegacyEnd)
      requires Valid()
      modifies this, conn
      ensures Valid()
      ensures SlaveServe(codec, old(conn.incoming), old(db)) == SlaveSession(performed, db, end, conn.incoming)
      ensures conn.sent == old(conn.sent)
      ensures updated == old(updated) && listbox == old(listbox)
    {
      performed := [];
      while true
        invariant Valid()
        invariant conn.sent == old(conn.sent)
        invariant updated == old(updated) && listbox == old(listbox)
        invariant SlaveServe(codec, old(conn.incoming), old(db)) == After(performed, SlaveServe(codec, conn.incoming, db))
        decreases |conn.incoming|
      {
        var data := conn.Recv();
        if data == "" {
          end := ConnectionLost;
          assert performed + [] == performed;
          return;
        }
        var p := codec.loads(data);
        if p.None? {
          end := Undecodable;
          assert performed + [] == performed;
          return;
        }
        match Dispatch(p.value) {
          case Stop =>
            end := Exited;
            assert performed + [] == performed;
            return;
          case Raise =>
            end := MissingType;
            assert performed + [] == performed;
            return;
          case Skip =>
          case Store(received) =>
            SyncMacrosToDb(received);
          case Perform(a) =>
            Assoc(performed, [a], SlaveServe(codec, conn.incoming, db).performed);
            performed := performed + [a];
        }
      }
    }

    /**
      `listen_for_data` once a master has connected: challenge it, then send
      the success status and run the receive loop, or the failure status and stop.
     */
    method ListenForData(conn: Connection, sha: string -> string, codec: JsonCodec) returns (authenticated: bool, performed: seq<Injection>)
      requires Valid()
      modifies this, conn
      ensures Valid()
      ensures updated == old(updated) && listbox == old(listbox)
      ensures |conn.sent| == |old(conn.sent)| + 2 && conn.sent[..|old(conn.sent)|] == old(conn.sent)
      ensures IsChallenge(conn.sent[|old(conn.sent)|])
      ensures authenticated <==> ValidateResponse(LegacyConfig(sha, codec), Head(old(conn.incoming)), conn.sent[|old(conn.sent)|])
      ensures conn.sent[|old(conn.sent)| + 1] == if authenticated then AUTH_SUCCESS else AUTH_FAILED
      ensures authenticated ==>
        var s := SlaveServe(codec, Tail(old(conn.incoming)), old(db));
        performed == s.performed && db == s.db && conn.incoming == s.rest
      ensures !authenticated ==> performed == [] && db == old(db) && conn.incoming == Tail(old(conn.incoming))
    {
      var challenge;
      authenticated, challenge := Challenge(conn, LegacyConfig(sha, codec));
      if authenticated {
        conn.SendAll(AUTH_SUCCESS);
        var end;
        performed, end := ReceiveLoop(conn, codec);
      } else {
        conn.SendAll(AUTH_FAILED);
        performed := [];
      }
    }

    /**
      `sync_macros`: send the whole of `MACROS` as one table message. The
      store write before it always fails inside the source's own error
      handler, so the table is left as it is.
     */
    method SyncMacros(conn: Connection, codec: JsonCodec)
      requires Valid()
      modifies conn
      ensures conn.sent == old(conn.sent) + [codec.dumps(Payload.SyncMacros(manager.macros.Items()))]
      ensures conn.incoming == old(conn.incoming)
    {
      conn.SendAll(codec.dumps(Payload.SyncMacros(manager.macros.Items())));
    }

    /**
      `send_data_to_slave` once connected: answer the challenge, and on
      success send the table and run the polling loop for the given rounds,
      sending the table again at the top of a round whenever the flag is set.
     */
    method SendDataToSlave(conn: Connection, sha: string -> string, codec: JsonCodec, rounds: seq<Round>) returns (authenticated: bool)
      requires Valid() && Fits(rounds, |manager.macros.order|)
      modifies this, conn, ledger
      ensures Valid() && db == old(db) && listbox == old(listbox)
      ensures authenticated <==> Head(Tail(old(conn.incoming))) == AUTH_SUCCESS
      ensures conn.incoming == Tail(Tail(old(conn.incoming)))
      ensures var handshake := old(conn.sent) + [HashChallenge(LegacyConfig(sha, codec), Head(old(conn.incoming)))];
        var table := codec.dumps(Payload.SyncMacros(manager.macros.Items()));
        if authenticated then
          var r := RunRounds(old(ledger.times), manager.macros.Items(), rounds);
          && conn.sent == handshake + [table] + (if old(updated) && rounds != [] then [table] else []) + Wire(codec, r.fired)
          && ledger.times == r.times
          && updated == (old(updated) && rounds == [])
        else
          conn.sent == handshake && ledger.times == old(ledger.times) && updated == old(updated)
    {
      authenticated := Respond(conn, LegacyConfig(sha, codec));
      if authenticated {
        MasterSession(conn, sha, codec, rounds);
      }
    }

    /** `send_data_to_slave` after a successful handshake: send the table, then run the polling loop. */
    method MasterSession(conn: Connection, sha: string -> string, codec: JsonCodec, rounds: seq<Round>)
      requires Valid() && Fits(rounds, |manager.macros.order|)
      modifies this, conn, ledger
      ensures Valid() && db == old(db) && listbox == old(listbox)
      ensures conn.incoming == old(conn.incoming)
      ensures var table := codec.dumps(Payload.SyncMacros(manager.macros.Items()));
        var r := RunRounds(old(ledger.times), manager.macros.Items(), rounds);
        && conn.sent == old(conn.sent) + [table] + (if old(updated) && rounds != [] then [table] else []) + Wire(codec, r.fired)
        && ledger.times == r.times
        && updated == (old(updated) && rounds == [])
    {
      SyncMacros(conn, codec);
      var client := new Client(conn, ledger, manager, LegacyConfig(sha, codec));
      updated := PollRounds(client, rounds, codec.dumps(Payload.SyncMacros(manager.macros.Items())), updated);
    }

    /** `update_db_and_dict`: write the row, map the hotkey to the one action, raise the flag, redraw. */
    method UpdateDbAndDict(hotkey: string, action: string)
      requires Valid()
      modifies this, manager
      ensures Valid()
      ensures db == Upsert(old(db), hotkey, action)
      ensures manager.macros == old(manager.macros).Put(hotkey, [action])
      ensures updated && listbox == Listing(manager.macros)
      ensures Agree(old(db), old(manager.macros)) ==> Agree(db, manager.macros)
    {
      if Agree(db, manager.macros) {
        AddAgrees(db, manager.macros, hotkey, action);
      }
      db := Upsert(db, hotkey, action);
      manager.AddMacro(hotkey, action);
      updated := true;
      LoadMacrosIntoListbox();
    }

    /** `add_macro`: both dialog answers must be non-empty; otherwise nothing happens. */
    method AddMacro(hotkey: Option<string>, action: Option<string>)
      requires Valid()
      modifies this, manager
      ensures Valid()
      ensures Truthy(hotkey) && Truthy(action) ==>
        && db == Upsert(old(db), hotkey.value, action.value)
        && manager.macros == old(manager.macros).Put(hotkey.value, [action.value])
        && updated && listbox == Listing(manager.macros)
      ensures !(Truthy(hotkey) && Truthy(action)) ==>
        db == old(db) && manager.macros == old(manager.macros) && updated == old(updated) && listbox == old(listbox)
      ensures Agree(old(db), old(manager.macros)) ==> Agree(db, manager.macros)
    {
      if Truthy(hotkey) && Truthy(action) {
        UpdateDbAndDict(hotkey.value, action.value);
      }
    }

    /**
      `edit_macro` on the selected line, given the two dialog answers: read
      the hotkey back from the line, rewrite its row under the new hotkey,
      then rename it in `MACROS`. The row is written with `INSERT OR
      REPLACE`; the plain insert of the source is `EditRowsAsWritten`.
     */
    method EditMacro(selected: Option<nat>, newHotkey: Option<string>, newAction: Option<string>) returns (outcome: Outcome)
      requires Valid()
      requires selected.Some? ==> selected.value < |listbox|
      modifies this, manager
      ensures Valid()
      ensures selected.None? ==> outcome == NoSelection
      ensures selected.Some? ==>
        var parsed := EditParse(old(listbox)[selected.value]);
        && (parsed.None? ==> outcome == Unparsable)
        && (parsed.Some? && !(Truthy(newHotkey) && Truthy(newAction)) ==> outcome == Cancelled)
        && (parsed.Some? && Truthy(newHotkey) && Truthy(newAction) ==>
          var existing := parsed.value.0;
          && db == EditRows(old(db), existing, newHotkey.value, newAction.value)
          && (existing in old(manager.macros.items) ==>
            && outcome == Done
            && manager.macros == old(manager.macros).Remove(existing).Put(newHotkey.value, [newAction.value])
            && updated && listbox == Listing(manager.macros))
          && (existing !in old(manager.macros.items) ==> outcome == NotFound))
      ensures outcome != Done ==> manager.macros == old(manager.macros) && updated == old(updated) && listbox == old(listbox)
      ensures outcome in {NoSelection, Unparsable, Cancelled} ==> db == old(db)
      ensures outcome != NotFound && Agree(old(db), old(manager.macros)) ==> Agree(db, manager.macros)
      ensures selected.Some? && Synced(old(listbox), old(manager.macros)) && Truthy(newHotkey) && Truthy(newAction) ==>
        && outcome == Done
        && manager.macros == old(manager.macros).Remove(old(manager.macros.order)[selected.value]).Put(newHotkey.value, [newAction.value])
    {
      if selected.None? {
        return NoSelection;
      }
      var parsed := EditParse(listbox[selected.value]);
      assert Synced(listbox, manager.macros) ==>
        parsed.Some? && parsed.value.0 == manager.macros.order[selected.value] && parsed.value.0 in manager.macros.items
      by {
        if Synced(listbox, manager.macros) {
          ListingParses(manager.macros, selected.value);
          assert manager.macros.order[selected.value] in manager.macros.items;
        }
      }
      if parsed.None? {
        return Unparsable;
      }
      if !(Truthy(newHotkey) && Truthy(newAction)) {
        return Cancelled;
      }
      var existing := parsed.value.0;
      if existing !in manager.macros.items {
        db := EditRows(db, existing, newHotkey.value, newAction.value);
        return NotFound;
      }
      Rename(existing, newHotkey.value, newAction.value);
      outcome := Done;
    }

    /** The effects of `edit_macro` once the hotkey read back is in `MACROS`. */
    method Rename(existing: string, newHotkey: string, newAction: string)
      requires Valid() && existing in manager.macros.items
      modifies this, manager
      ensures Valid()
      ensures db == EditRows(old(db), existing, newHotkey, newAction)
      ensures manager.macros == old(manager.macros).Remove(existing).Put(newHotkey, [newAction])
      ensures updated && listbox == Listing(manager.macros)
      ensures Agree(old(db), old(manager.macros)) ==> Agree(db, manager.macros)
    {
      RenameKeeps(db, manager.macros, existing, newHotkey, newAction);
      db := EditRows(db, existing, newHotkey, newAction);
      manager.EditMacro(existing, newHotkey, newAction);
      updated := true;
      LoadMacrosIntoListbox();
    }

    /**
      `delete_macro` on the selected line once confirmed: read the hotkey
      back from the line, delete its row, then delete it from `MACROS`,
      reporting a hotkey that is not there, and redraw. The hotkey is read
      back with `DeleteParse`; the source's own reading is `DeleteParseAsWritten`.
     */
    method DeleteMacro(selected: Option<nat>, confirm: bool) returns (outcome: Outcome)
      requires Valid()
      requires selected.Some? ==> selected.value < |listbox|
      modifies this, manager
      ensures Valid()
      ensures selected.None? ==> outcome == NoSelection
      ensures selected.Some? && !confirm ==> outcome == Declined
      ensures selected.Some? && confirm ==>
        var parsed := DeleteParse(old(listbox)[selected.value]);
        && (parsed.None? ==> outcome == Unparsable)
        && (parsed.Some? ==>
          && db == old(db).Remove(parsed.value)
          && manager.macros == old(manager.macros).Remove(parsed.value)
          && listbox == Listing(manager.macros)
          && (outcome == Done <==> parsed.value in old(manager.macros.items))
          && (outcome == NotFound <==> parsed.value !in old(manager.macros.items))
          && updated == (old(updated) || outcome == Done))
      ensures outcome in {NoSelection, Declined, Unparsable} ==>
        db == old(db) && manager.macros == old(manager.macros) && updated == old(updated) && listbox == old(listbox)
      ensures Agree(old(db), old(manager.macros)) ==> Agree(db, manager.macros)
      ensures selected.Some? && confirm && Synced(old(listbox), old(manager.macros)) ==>
        outcome == Done && manager.macros == old(manager.macros).Remove(old(manager.macros.order)[selected.value])
    {
      if selected.None? {
        return NoSelection;
      }
      if !confirm {
        return Declined;
      }
      if Synced(listbox, manager.macros) {
        ListingParses(manager.macros, selected.value);
      }
      var parsed := DeleteParse(listbox[selected.value]);
      if parsed.None? {
        return Unparsable;
      }
      var hotkey := parsed.value;
      RemoveKeeps(db, manager.macros, hotkey);
      db := db.Remove(hotkey);
      if hotkey in manager.macros.items {
        manager.DeleteMacro(hotkey);
        updated := true;
        outcome := Done;
      } else {
        outcome := NotFound;
      }
      LoadMacrosIntoListbox();
    }
  }
}
