/**
  The typed messages the two peers exchange after the handshake, the
  desktop actions a responder performs for them, and the translation of a
  macro's action strings ("EXIT:", "TEXT:<text>", "KEYS:<k1>+<k2>...") into
  messages (`process_and_send_command`).
 */
module Messages {
  import opened Wrappers
  import opened Strings
  import opened Seqs

  /** A JSON message, told apart by its "type" field. */
  datatype Payload =
    | Exit                                              // {"type": "exit"}
    | Text(text: string)                                // {"type": "text", "data": text}
    | Keys(keys: seq<string>)                           // {"type": "keys", "data": [k1, k2, ...]}
    | MouseMove(x: int, y: int)                         // {"type": "mouse_move", "data": {"x": x, "y": y}}
    | MouseMoveRel(dx: int, dy: int)                    // {"type": "mouse_move_rel", "data": {"dx": dx, "dy": dy}}
    | SyncMacros(macros: seq<(string, seq<string>)>)    // {"type": "SYNC_MACROS", "data": {hotkey: actions, ...}}
    | Unknown(kind: Option<string>)                     // any other "type" (Some), or no "type" field (None)

  /** What a responder asks the input injection library (pyautogui) to do. */
  datatype Injection =
    | TypeText(text: string)          // pyautogui.write(text)
    | PressCombo(keys: seq<string>)   // pyautogui.hotkey(*keys)
    | MoveTo(x: int, y: int)          // pyautogui.moveTo(x, y)
    | MoveBy(dx: int, dy: int)        // pyautogui.move(dx, dy)

  /**
    `json.dumps` and `json.loads` between messages and the text sent on the
    socket. The encoding itself is not modelled; `Sound` is all the model
    relies on.
   */
  datatype JsonCodec = JsonCodec(dumps: Payload -> string, loads: string -> Option<Payload>)

  /** Decoding undoes encoding, and no encoded message is empty. */
  ghost predicate Sound(codec: JsonCodec) {
    forall p :: codec.loads(codec.dumps(p)) == Some(p) && codec.dumps(p) != ""
  }

  /** The texts sent for a list of messages, one per message, in order. */
  function DumpsAll(codec: JsonCodec, ps: seq<Payload>): (texts: seq<string>)
    ensures |texts| == |ps|
  {
    if ps == [] then [] else [codec.dumps(ps[0])] + DumpsAll(codec, ps[1..])
  }

  lemma {:induction false} DumpsAllAppend(codec: JsonCodec, a: seq<Payload>, b: seq<Payload>)
    ensures DumpsAll(codec, a + b) == DumpsAll(codec, a) + DumpsAll(codec, b)
  {
    if a == [] {
      assert a + b == b;
    } else {
      assert (a + b)[0] == a[0] && (a + b)[1..] == a[1..] + b;
      DumpsAllAppend(codec, a[1..], b);
    }
  }

  const EXIT_PREFIX := "EXIT:"
  const TEXT_PREFIX := "TEXT:"
  const KEYS_PREFIX := "KEYS:"

  /** One of the three command prefixes. */
  predicate IsCommand(command: string) {
    StartsWith(command, EXIT_PREFIX) || StartsWith(command, TEXT_PREFIX) || StartsWith(command, KEYS_PREFIX)
  }

  /**
    The message `process_and_send_command` builds for an action string, or
    None for a string with none of the three prefixes, for which it only logs
    an error and sends nothing.
   */
  function EncodeCommand(command: string): (p: Option<Payload>)
    ensures p.Some? <==> IsCommand(command)
    ensures p.Some? ==> p.value.Exit? || p.value.Text? || p.value.Keys?
    ensures p == Some(Exit) <==> StartsWith(command, EXIT_PREFIX)
    ensures p.Some? && p.value.Text? ==> IsStripped(p.value.text) && |p.value.text| <= |command| - 5
    ensures p.Some? && p.value.Keys? ==> |p.value.keys| >= 1 && forall k :: k in p.value.keys ==> '+' !in k
  {
    if StartsWith(command, EXIT_PREFIX) then Some(Exit)
    else if StartsWith(command, TEXT_PREFIX) then Some(Text(Strip(command[|TEXT_PREFIX|..])))
    else if StartsWith(command, KEYS_PREFIX) then Some(Keys(Split(Strip(command[|KEYS_PREFIX|..]), '+')))
    else None
  }

  /** The three prefixes have the same length and differ, so at most one matches. */
  lemma PrefixesExclusive(command: string)
    ensures !(StartsWith(command, EXIT_PREFIX) && StartsWith(command, TEXT_PREFIX))
    ensures !(StartsWith(command, EXIT_PREFIX) && StartsWith(command, KEYS_PREFIX))
    ensures !(StartsWith(command, TEXT_PREFIX) && StartsWith(command, KEYS_PREFIX))
  {
    if StartsWith(command, EXIT_PREFIX) {
      assert command[0] == 'E';
    } else if StartsWith(command, TEXT_PREFIX) {
      assert command[0] == 'T';
    }
  }

  /**
    What each prefix yields, whatever follows it: "EXIT:" the exit message,
    "TEXT:" the rest stripped, "KEYS:" the rest stripped and split at '+'.
   */
  lemma EncodeCommandByPrefix(s: string)
    ensures EncodeCommand(EXIT_PREFIX + s) == Some(Exit)
    ensures EncodeCommand(TEXT_PREFIX + s) == Some(Text(Strip(s)))
    ensures EncodeCommand(KEYS_PREFIX + s) == Some(Keys(Split(Strip(s), '+')))
  {
    StartsWithConcat(EXIT_PREFIX, s);
    StartsWithConcat(TEXT_PREFIX, s);
    StartsWithConcat(KEYS_PREFIX, s);
    PrefixesExclusive(TEXT_PREFIX + s);
    PrefixesExclusive(KEYS_PREFIX + s);
  }

  /** The messages a macro's action list produces, in list order, skipping invalid actions. */
  function EncodeAll(commands: seq<string>): seq<Payload> {
    if commands == [] then []
    else
      (match EncodeCommand(commands[0]) case Some(p) => [p] case None => [])
      + EncodeAll(commands[1..])
  }

  /** A message in the form `EncodeCommand` produces. */
  predicate IsCommandPayload(p: Payload) {
    match p
    case Exit => true
    case Text(t) => IsStripped(t)
    case Keys(ks) => |ks| >= 1 && (forall k :: k in ks ==> '+' !in k) && IsStripped(Join(ks, '+'))
    case _ => false
  }

  /** The action string that asks for a message. */
  function CommandFor(p: Payload): string
    requires p.Exit? || p.Text? || p.Keys?
  {
    match p
    case Exit => EXIT_PREFIX
    case Text(t) => TEXT_PREFIX + t
    case Keys(ks) => KEYS_PREFIX + Join(ks, '+')
  }

  /** Every message in the encoder's form is produced by its action string. */
  lemma EncodeCommandRoundTrip(p: Payload)
    requires IsCommandPayload(p)
    ensures EncodeCommand(CommandFor(p)) == Some(p)
  {
    match p
    case Exit =>
      EncodeCommandByPrefix([]);
      assert EXIT_PREFIX + [] == EXIT_PREFIX;
    case Text(t) =>
      EncodeCommandByPrefix(t);
      StripFixpoint(t);
    case Keys(ks) =>
      EncodeCommandByPrefix(Join(ks, '+'));
      StripFixpoint(Join(ks, '+'));
      SplitJoin(ks, '+');
  }

  /** Whatever the encoder produces is in its form, so encoding is a normalisation. */
  lemma EncodeCommandCanonical(command: string)
    requires IsCommand(command)
    ensures IsCommandPayload(EncodeCommand(command).value)
    ensures EncodeCommand(CommandFor(EncodeCommand(command).value)) == EncodeCommand(command)
  {
    var p := EncodeCommand(command).value;
    if p.Keys? {
      JoinSplit(Strip(command[5..]), '+');
    }
    EncodeCommandRoundTrip(p);
  }

  /** The messages of two action lists, one after the other. */
  lemma {:induction false} EncodeAllAppend(a: seq<string>, b: seq<string>)
    ensures EncodeAll(a + b) == EncodeAll(a) + EncodeAll(b)
  {
    if a != [] {
      var ab := a + b;
      assert ab[0] == a[0] && ab[1..] == a[1..] + b;
      EncodeAllAppend(a[1..], b);
      var head := match EncodeCommand(a[0]) case Some(p) => [p] case None => [];
      assert EncodeAll(ab) == head + EncodeAll(a[1..] + b);
      assert EncodeAll(a) == head + EncodeAll(a[1..]);
      Assoc(head, EncodeAll(a[1..]), EncodeAll(b));
    } else {
      assert a + b == b;
    }
  }

  /** The texts `process_and_send_command` sends for a list of action strings. */
  function Wire(codec: JsonCodec, commands: seq<string>): seq<string> {
    DumpsAll(codec, EncodeAll(commands))
  }

  /** One action string sends its message, or nothing when it is not a command. */
  lemma WireOne(codec: JsonCodec, command: string)
    ensures Wire(codec, [command]) == match EncodeCommand(command) case Some(p) => [codec.dumps(p)] case None => []
  {
    assert [command][1..] == [];
    assert EncodeAll([command]) == match EncodeCommand(command) case Some(p) => [p] case None => [];
  }

  lemma WireAppend(codec: JsonCodec, a: seq<string>, b: seq<string>)
    ensures Wire(codec, a + b) == Wire(codec, a) + Wire(codec, b)
  {
    EncodeAllAppend(a, b);
    DumpsAllAppend(codec, EncodeAll(a), EncodeAll(b));
  }

  /** The texts for the first `j + 1` action strings: those for the first `j`, then those for action `j`. */
  lemma WirePrefix(codec: JsonCodec, commands: seq<string>, j: nat)
    requires j < |commands|
    ensures Wire(codec, commands[..j + 1]) == Wire(codec, commands[..j]) + Wire(codec, [commands[j]])
  {
    TakeNext(commands, j);
    WireAppend(codec, commands[..j], [commands[j]]);
  }
}
