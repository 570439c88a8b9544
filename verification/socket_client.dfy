/**
  The initiator of `socket_client.py`: it authenticates to the responder,
  then polls the macro table forever, sending the messages of every hotkey
  whose keys were pressed recently. The infinite loop is modelled as a
  finite list of rounds, each a batch of key presses followed by one pass
  over the table.
 */
module SocketClient {
  import opened Channel
  import opened Settings
  import opened Messages
  import opened Handshake
  import opened Hotkey
  import opened MacroTable
  import opened Seqs

  /** `process_and_send_command`: one message for a valid action string, nothing otherwise. */
  method SendCommand(conn: Connection, codec: JsonCodec, command: string)
    modifies conn
    ensures conn.sent == old(conn.sent) + Wire(codec, [command])
    ensures conn.incoming == old(conn.incoming)
  {
    WireOne(codec, command);
    var payload := EncodeCommand(command);
    if payload.Some? {
      conn.SendAll(codec.dumps(payload.value));
    }
  }

  /** `for command in commands: process_and_send_command(command)` */
  method SendCommands(conn: Connection, codec: JsonCodec, commands: seq<string>)
    modifies conn
    ensures conn.sent == old(conn.sent) + Wire(codec, commands)
    ensures conn.incoming == old(conn.incoming)
  {
    var j := 0;
    while j < |commands|
      invariant 0 <= j <= |commands|
      invariant conn.incoming == old(conn.incoming)
      invariant conn.sent == old(conn.sent) + Wire(codec, commands[..j])
    {
      WirePrefix(codec, commands, j);
      Assoc(old(conn.sent), Wire(codec, commands[..j]), Wire(codec, [commands[j]]));
      SendCommand(conn, codec, commands[j]);
      j := j + 1;
    }
    TakeAll(commands);
  }

  /** One round of the polling loop: the presses the listener saw, then a clock reading per hotkey. */
  datatype Round = Round(presses: seq<(PressedKey, int)>, clock: seq<int>)

  /** Every round reads the clock once per entry of a table of `width` entries. */
  predicate Fits(rounds: seq<Round>, width: nat) {
    forall n :: 0 <= n < |rounds| ==> |rounds[n].clock| == width
  }

  /** The messages and record after a sequence of rounds over the same table. */
  function RunRounds(times: map<string, int>, snapshot: seq<(string, seq<string>)>, rounds: seq<Round>): (r: Poll)
    requires Fits(rounds, |snapshot|)
    decreases |rounds|
  {
    if rounds == [] then Poll([], times)
    else
      var first := PollCycle(Record(times, rounds[0].presses), snapshot, rounds[0].clock);
      var rest := RunRounds(first.times, snapshot, rounds[1..]);
      Poll(first.fired + rest.fired, rest.times)
  }

  /** Running one more round after a sequence of rounds. */
  lemma {:induction false} RunRoundsSnoc(times: map<string, int>, snapshot: seq<(string, seq<string>)>, rounds: seq<Round>, last: Round)
    requires Fits(rounds, |snapshot|) && |last.clock| == |snapshot|
    ensures var before := RunRounds(times, snapshot, rounds);
      var final := PollCycle(Record(before.times, last.presses), snapshot, last.clock);
      RunRounds(times, snapshot, rounds + [last]) == Poll(before.fired + final.fired, final.times)
    decreases |rounds|
  {
    if rounds == [] {
      assert rounds + [last] == [last];
    } else {
      var longer := rounds + [last];
      assert longer[0] == rounds[0] && longer[1..] == rounds[1..] + [last];
      var first := PollCycle(Record(times, rounds[0].presses), snapshot, rounds[0].clock);
      var inner := RunRounds(first.times, snapshot, rounds[1..]);
      var final := PollCycle(Record(inner.times, last.presses), snapshot, last.clock);
      assert RunRounds(times, snapshot, rounds) == Poll(first.fired + inner.fired, inner.times);
      RunRoundsSnoc(first.times, snapshot, rounds[1..], last);
      assert RunRounds(times, snapshot, longer) == Poll(first.fired + (inner.fired + final.fired), final.times);
      Assoc(first.fired, inner.fired, final.fired);
    }
  }

  /** The first `n + 1` rounds: the first `n`, then round `n`. */
  lemma RunRoundsPrefix(times: map<string, int>, snapshot: seq<(string, seq<string>)>, rounds: seq<Round>, n: nat)
    requires Fits(rounds, |snapshot|) && n < |rounds|
    ensures var before := RunRounds(times, snapshot, rounds[..n]);
      var final := PollCycle(Record(before.times, rounds[n].presses), snapshot, rounds[n].clock);
      RunRounds(times, snapshot, rounds[..n + 1]) == Poll(before.fired + final.fired, final.times)
  {
    TakeNext(rounds, n);
    RunRoundsSnoc(times, snapshot, rounds[..n], rounds[n]);
  }

  /** Rounds without key presses after a first pass send nothing more. */
  lemma {:induction false} IdleRoundsSilent(times: map<string, int>, snapshot: seq<(string, seq<string>)>, first: seq<int>, rounds: seq<Round>)
    requires |first| == |snapshot|
    requires Fits(rounds, |snapshot|) && forall n :: 0 <= n < |rounds| ==> rounds[n].presses == []
    requires forall n, j :: 0 <= n < |rounds| && 0 <= j < |snapshot| ==> rounds[n].clock[j] > WINDOW
    requires forall n, i, j :: 0 <= n < |rounds| && 0 <= i < |snapshot| && 0 <= j < |snapshot| ==> first[i] <= rounds[n].clock[j]
    ensures RunRounds(PollCycle(times, snapshot, first).times, snapshot, rounds).fired == []
    decreases |rounds|
  {
    if rounds != [] {
      var after := PollCycle(times, snapshot, first).times;
      SecondCycleSilent(times, snapshot, first, rounds[0].clock);
      forall j | 0 <= j < |snapshot|
        ensures !PressedRecently(after, RequiredKeys(snapshot[j].0), rounds[0].clock[j])
      {
        NoRefireWithoutPress(times, snapshot, first, rounds[0].clock[j]);
      }
      QuietCycle(after, snapshot, rounds[0].clock);
      assert Record(after, rounds[0].presses) == after;
      assert PollCycle(after, snapshot, rounds[0].clock).times == after;
      IdleRoundsSilent(times, snapshot, first, rounds[1..]);
    }
  }

  class Client {
    const conn: Connection
    const ledger: KeyLedger
    const manager: MacroManager
    const cfg: Config

    constructor(conn: Connection, ledger: KeyLedger, manager: MacroManager, cfg: Config)
      ensures this.conn == conn && this.ledger == ledger && this.manager == manager && this.cfg == cfg
    {
      this.conn := conn;
      this.ledger := ledger;
      this.manager := manager;
      this.cfg := cfg;
    }

    /** `should_execute_macro`: fire when all keys were pressed recently, and then forget them. */
    method ShouldExecuteMacro(hotkey: string, now: int) returns (fire: bool)
      modifies ledger
      ensures fire <==> PressedRecently(old(ledger.times), RequiredKeys(hotkey), now)
      ensures ledger.times == if fire then old(ledger.times) - RequiredKeys(hotkey) else old(ledger.times)
    {
      var keys := RequiredKeys(hotkey);
      fire := PressedRecently(ledger.times, keys, now);
      if fire {
        ledger.Forget(keys);
      }
    }

    /** The body of `main_client_loop` for one hotkey: check it, and send its messages when it fires. */
    method CheckEntry(entry: (string, seq<string>), now: int)
      modifies ledger, conn
      ensures var s := Step(old(ledger.times), entry, now);
        conn.sent == old(conn.sent) + Wire(cfg.codec, s.fired) && ledger.times == s.times
      ensures conn.incoming == old(conn.incoming)
    {
      var fire := ShouldExecuteMacro(entry.0, now);
      if fire {
        SendCommands(conn, cfg.codec, entry.1);
      } else {
        assert Wire(cfg.codec, []) == [];
      }
    }

    /** One pass of `main_client_loop` over a copy of the table, one clock reading per hotkey. */
    method PollMacros(clock: seq<int>)
      requires manager.Valid() && |clock| == |manager.macros.order|
      modifies ledger, conn
      ensures var r := PollCycle(old(ledger.times), manager.macros.Items(), clock);
        conn.sent == old(conn.sent) + Wire(cfg.codec, r.fired) && ledger.times == r.times
      ensures conn.incoming == old(conn.incoming)
    {
      var snapshot := manager.GetMacros().Items();
      ghost var times0, sent0 := ledger.times, conn.sent;
      var i := 0;
      while i < |snapshot|
        invariant 0 <= i <= |snapshot|
        invariant conn.incoming == old(conn.incoming)
        invariant var done := PollCycle(times0, snapshot[..i], clock[..i]);
          conn.sent == sent0 + Wire(cfg.codec, done.fired) && ledger.times == done.times
      {
        ghost var done := PollCycle(times0, snapshot[..i], clock[..i]);
        ghost var step := Step(done.times, snapshot[i], clock[i]);
        PollCyclePrefix(times0, snapshot, clock, i);
        WireAppend(cfg.codec, done.fired, step.fired);
        Assoc(sent0, Wire(cfg.codec, done.fired), Wire(cfg.codec, step.fired));
        CheckEntry(snapshot[i], clock[i]);
        i := i + 1;
      }
      TakeAll(snapshot);
      TakeAll(clock);
    }

    /** One round: the listener records the presses, then one pass over the table. */
    method PlayRound(round: Round)
      requires manager.Valid() && |round.clock| == |manager.macros.order|
      modifies ledger, conn
      ensures var r := PollCycle(Record(old(ledger.times), round.presses), manager.macros.Items(), round.clock);
        conn.sent == old(conn.sent) + Wire(cfg.codec, r.fired) && ledger.times == r.times
      ensures conn.incoming == old(conn.incoming)
    {
      ledger.RecordPresses(round.presses);
      PollMacros(round.clock);
    }

    /** `main_client_loop`, for the given rounds of key presses and passes. */
    method MainClientLoop(rounds: seq<Round>)
      requires manager.Valid()
      requires Fits(rounds, |manager.macros.order|)
      modifies ledger, conn
      ensures var r := RunRounds(old(ledger.times), manager.macros.Items(), rounds);
        conn.sent == old(conn.sent) + Wire(cfg.codec, r.fired) && ledger.times == r.times
      ensures conn.incoming == old(conn.incoming)
    {
      ghost var snapshot := manager.macros.Items();
      ghost var times0, sent0 := ledger.times, conn.sent;
      var n := 0;
      while n < |rounds|
        invariant 0 <= n <= |rounds|
        invariant conn.incoming == old(conn.incoming)
        invariant var done := RunRounds(times0, snapshot, rounds[..n]);
          conn.sent == sent0 + Wire(cfg.codec, done.fired) && ledger.times == done.times
      {
        ghost var done := RunRounds(times0, snapshot, rounds[..n]);
        ghost var final := PollCycle(Record(done.times, rounds[n].presses), snapshot, rounds[n].clock);
        RunRoundsPrefix(times0, snapshot, rounds, n);
        WireAppend(cfg.codec, done.fired, final.fired);
        Assoc(sent0, Wire(cfg.codec, done.fired), Wire(cfg.codec, final.fired));
        PlayRound(rounds[n]);
        n := n + 1;
      }
      TakeAll(rounds);
    }

    /** `start_client_services`: authenticate, then run the polling loop; a failed handshake ends the session. */
    method StartClientServices(rounds: seq<Round>) returns (authenticated: bool)
      requires manager.Valid()
      requires Fits(rounds, |manager.macros.order|)
      modifies ledger, conn
      ensures authenticated <==> Head(Tail(old(conn.incoming))) == cfg.authSuccess
      ensures conn.incoming == Tail(Tail(old(conn.incoming)))
      ensures var handshake := old(conn.sent) + [HashChallenge(cfg, Head(old(conn.incoming)))];
        if authenticated then
          var r := RunRounds(old(ledger.times), manager.macros.Items(), rounds);
          conn.sent == handshake + Wire(cfg.codec, r.fired) && ledger.times == r.times
        else
          conn.sent == handshake && ledger.times == old(ledger.times)
    {
      authenticated := Respond(conn, cfg);
      if authenticated {
        MainClientLoop(rounds);
      }
    }
  }
}
