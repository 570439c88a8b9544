/**
  Hotkey detection. A keyboard listener records, for every key name, the
  clock reading of its latest press; a polling loop fires a hotkey when all
  of its '+'-separated keys were pressed within the window before the
  current reading, sends the hotkey's action strings, and forgets those
  keys so the same presses cannot fire it again. Times are integer
  milliseconds.
 */
module Hotkey {
  import opened Strings
  import opened Seqs

  /** The default `window=0.5` of `keys_pressed_recently`, in milliseconds. */
  const WINDOW := 500

  /** A key event of the listener: a printable key (`key.char`) or a named one (`key.name`). */
  datatype PressedKey = CharKey(ch: char) | SpecialKey(name: string)

  /** The name a press is recorded under. */
  function KeyName(key: PressedKey): string {
    match key
    case CharKey(c) => [c]
    case SpecialKey(n) => n
  }

  /** `set(hotkey.split('+'))`: never empty, and no name holds a '+'. */
  function RequiredKeys(hotkey: string): (keys: set<string>)
    ensures keys != {}
    ensures forall k :: k in keys ==> '+' !in k
    ensures forall k :: k in keys <==> k in Split(hotkey, '+')
  {
    var parts := Split(hotkey, '+');
    var keys := set k | k in parts;
    assert parts[0] in keys;
    keys
  }

  /** `key_press_times.get(key, 0)`: a key never pressed counts as pressed at time 0. */
  function Stamp(times: map<string, int>, key: string): int {
    if key in times then times[key] else 0
  }

  /** `keys_pressed_recently(keys)`: every key was pressed no earlier than the window before `now`. */
  predicate PressedRecently(times: map<string, int>, keys: set<string>, now: int) {
    forall k :: k in keys ==> Stamp(times, k) >= now - WINDOW
  }

  /** The record after `on_key_press` was called for each press in turn. */
  function Record(times: map<string, int>, presses: seq<(PressedKey, int)>): map<string, int>
    decreases |presses|
  {
    if presses == [] then times
    else Record(times[KeyName(presses[0].0) := presses[0].1], presses[1..])
  }

  /** Pressing names one after the other at the same time `t`. */
  function PressAll(times: map<string, int>, names: seq<string>, t: int): map<string, int>
    decreases |names|
  {
    if names == [] then times else PressAll(times[names[0] := t], names[1..], t)
  }

  lemma {:induction false} PressAllStamps(times: map<string, int>, names: seq<string>, t: int)
    ensures forall k :: k in names ==> k in PressAll(times, names, t) && PressAll(times, names, t)[k] == t
    ensures forall k :: k !in names ==> (k in PressAll(times, names, t) <==> k in times)
    ensures forall k :: k !in names && k in times ==> PressAll(times, names, t)[k] == times[k]
    decreases |names|
  {
    if names != [] {
      PressAllStamps(times[names[0] := t], names[1..], t);
    }
  }

  /**
    Pressing all keys of a hotkey at `t` makes it pressed recently exactly
    up to `t + WINDOW`, whatever was recorded before.
   */
  lemma DebounceWindow(times: map<string, int>, hotkey: string, t: int, now: int)
    ensures PressedRecently(PressAll(times, Split(hotkey, '+'), t), RequiredKeys(hotkey), now)
        <==> now <= t + WINDOW
  {
    var names := Split(hotkey, '+');
    PressAllStamps(times, names, t);
    assert names[0] in RequiredKeys(hotkey);
  }

  /** The action strings a check fired, in order, and the record it left. */
  datatype Poll = Poll(fired: seq<string>, times: map<string, int>)

  /**
    One check of one table entry at clock reading `now`: when all of the
    hotkey's keys were pressed recently it fires its action strings
    and forgets its keys; otherwise nothing happens.
   */
  function Step(times: map<string, int>, entry: (string, seq<string>), now: int): Poll {
    var keys := RequiredKeys(entry.0);
    if PressedRecently(times, keys, now) then Poll(entry.1, times - keys) else Poll([], times)
  }

  /**
    One pass of the polling loop over `snapshot` (the table's entries in
    order), reading the clock once per entry.
   */
  function PollCycle(times: map<string, int>, snapshot: seq<(string, seq<string>)>, clock: seq<int>): Poll
    requires |clock| == |snapshot|
    decreases |snapshot|
  {
    if snapshot == [] then Poll([], times)
    else
      var first := Step(times, snapshot[0], clock[0]);
      var rest := PollCycle(first.times, snapshot[1..], clock[1..]);
      Poll(first.fired + rest.fired, rest.times)
  }

  /** A pass over one more entry: the pass so far, then one more check. */
  lemma {:induction false} PollCycleSnoc(times: map<string, int>, snapshot: seq<(string, seq<string>)>, clock: seq<int>,
                                         entry: (string, seq<string>), now: int)
    requires |clock| == |snapshot|
    ensures var before := PollCycle(times, snapshot, clock);
      var last := Step(before.times, entry, now);
      PollCycle(times, snapshot + [entry], clock + [now]) == Poll(before.fired + last.fired, last.times)
    decreases |snapshot|
  {
    if snapshot == [] {
      assert snapshot + [entry] == [entry] && clock + [now] == [now];
    } else {
      var head := Step(times, snapshot[0], clock[0]);
      var rest := PollCycle(head.times, snapshot[1..], clock[1..]);
      var last := Step(rest.times, entry, now);
      PollCycleSnoc(head.times, snapshot[1..], clock[1..], entry, now);
      assert (snapshot + [entry])[0] == snapshot[0] && (snapshot + [entry])[1..] == snapshot[1..] + [entry];
      assert (clock + [now])[0] == clock[0] && (clock + [now])[1..] == clock[1..] + [now];
      assert PollCycle(times, snapshot + [entry], clock + [now]) == Poll(head.fired + (rest.fired + last.fired), last.times);
      assert head.fired + (rest.fired + last.fired) == (head.fired + rest.fired) + last.fired;
    }
  }

  /** The pass over the first `i + 1` entries: the pass over the first `i`, then entry `i`. */
  lemma PollCyclePrefix(times: map<string, int>, snapshot: seq<(string, seq<string>)>, clock: seq<int>, i: nat)
    requires |clock| == |snapshot| && i < |snapshot|
    ensures var before := PollCycle(times, snapshot[..i], clock[..i]);
      var last := Step(before.times, snapshot[i], clock[i]);
      PollCycle(times, snapshot[..i + 1], clock[..i + 1]) == Poll(before.fired + last.fired, last.times)
  {
    TakeNext(snapshot, i);
    TakeNext(clock, i);
    PollCycleSnoc(times, snapshot[..i], clock[..i], snapshot[i], clock[i]);
  }

  /** A pass only ever forgets presses, and keeps every press no hotkey of the snapshot uses. */
  lemma {:induction false} PollCycleForgets(times: map<string, int>, snapshot: seq<(string, seq<string>)>, clock: seq<int>)
    requires |clock| == |snapshot|
    ensures var r := PollCycle(times, snapshot, clock);
      && (forall k :: k in r.times ==> k in times && r.times[k] == times[k])
      && (forall k :: k in times && (forall i :: 0 <= i < |snapshot| ==> k !in RequiredKeys(snapshot[i].0)) ==> k in r.times)
    decreases |snapshot|
  {
    if snapshot != [] {
      var keys := RequiredKeys(snapshot[0].0);
      var next := Step(times, snapshot[0], clock[0]).times;
      PollCycleForgets(next, snapshot[1..], clock[1..]);
      var r := PollCycle(times, snapshot, clock);
      assert r.times == PollCycle(next, snapshot[1..], clock[1..]).times;
      forall k | k in times && (forall i :: 0 <= i < |snapshot| ==> k !in RequiredKeys(snapshot[i].0))
        ensures k in r.times
      {
        assert k !in keys;
        forall i | 0 <= i < |snapshot| - 1 ensures k !in RequiredKeys(snapshot[1..][i].0) {
          assert snapshot[1..][i] == snapshot[i + 1];
        }
      }
    }
  }

  /** A pass in which no hotkey is pressed recently fires nothing and forgets nothing. */
  lemma {:induction false} QuietCycle(times: map<string, int>, snapshot: seq<(string, seq<string>)>, clock: seq<int>)
    requires |clock| == |snapshot|
    requires forall i :: 0 <= i < |snapshot| ==> !PressedRecently(times, RequiredKeys(snapshot[i].0), clock[i])
    ensures PollCycle(times, snapshot, clock) == Poll([], times)
  {
    if snapshot != [] {
      assert !PressedRecently(times, RequiredKeys(snapshot[0].0), clock[0]);
      forall i | 0 <= i < |snapshot| - 1
        ensures !PressedRecently(times, RequiredKeys(snapshot[1..][i].0), clock[1..][i])
      {
        assert snapshot[1..][i] == snapshot[i + 1] && clock[1..][i] == clock[i + 1];
      }
      QuietCycle(times, snapshot[1..], clock[1..]);
    }
  }

  /**
    After a pass, no hotkey of the snapshot is pressed recently at any later
    reading past the first window: each one either fired and lost its keys,
    or had a stale key, which stays stale.
   */
  lemma {:induction false} NoRefireWithoutPress(times: map<string, int>, snapshot: seq<(string, seq<string>)>, clock: seq<int>, now: int)
    requires |clock| == |snapshot|
    requires now > WINDOW
    requires forall i :: 0 <= i < |clock| ==> clock[i] <= now
    ensures forall i :: 0 <= i < |snapshot| ==>
      !PressedRecently(PollCycle(times, snapshot, clock).times, RequiredKeys(snapshot[i].0), now)
  {
    if snapshot != [] {
      var r := PollCycle(times, snapshot, clock);
      var keys := RequiredKeys(snapshot[0].0);
      var fired := PressedRecently(times, keys, clock[0]);
      var next := Step(times, snapshot[0], clock[0]).times;
      assert r.times == PollCycle(next, snapshot[1..], clock[1..]).times;
      NoRefireWithoutPress(next, snapshot[1..], clock[1..], now);
      PollCycleForgets(next, snapshot[1..], clock[1..]);
      // the first hotkey
      var k :| k in keys && (fired || Stamp(times, k) < clock[0] - WINDOW);
      assert k !in r.times || r.times[k] == Stamp(times, k);
      assert Stamp(r.times, k) < now - WINDOW;
      // the others
      forall i | 1 <= i < |snapshot|
        ensures !PressedRecently(r.times, RequiredKeys(snapshot[i].0), now)
      {
        assert snapshot[1..][i - 1] == snapshot[i];
      }
    }
  }

  /**
    Re-fire suppression: a second pass over the same snapshot, with no key
    pressed in between and every reading later than those of the first pass
    and past the first window, fires nothing.
   */
  lemma SecondCycleSilent(times: map<string, int>, snapshot: seq<(string, seq<string>)>, first: seq<int>, second: seq<int>)
    requires |first| == |snapshot| && |second| == |snapshot|
    requires forall j :: 0 <= j < |second| ==> second[j] > WINDOW
    requires forall i, j :: 0 <= i < |first| && 0 <= j < |second| ==> first[i] <= second[j]
    ensures PollCycle(PollCycle(times, snapshot, first).times, snapshot, second).fired == []
  {
    var after := PollCycle(times, snapshot, first).times;
    forall j | 0 <= j < |snapshot|
      ensures !PressedRecently(after, RequiredKeys(snapshot[j].0), second[j])
    {
      NoRefireWithoutPress(times, snapshot, first, second[j]);
    }
    QuietCycle(after, snapshot, second);
  }

  /** The record of key presses, shared by the listener and the polling loop. */
  class KeyLedger {
    var times: map<string, int>

    constructor()
      ensures times == map[]
    {
      times := map[];
    }

    /** `on_key_press`: the key's latest press is now. */
    method OnKeyPress(key: PressedKey, now: int)
      modifies this
      ensures times == old(times)[KeyName(key) := now]
    {
      times := times[KeyName(key) := now];
    }

    /** The listener reporting a batch of presses, one `on_key_press` each. */
    method RecordPresses(presses: seq<(PressedKey, int)>)
      modifies this
      ensures times == Record(old(times), presses)
    {
      var i := 0;
      while i < |presses|
        invariant 0 <= i <= |presses|
        invariant Record(times, presses[i..]) == Record(old(times), presses)
      {
        assert presses[i..][1..] == presses[i + 1..];
        OnKeyPress(presses[i].0, presses[i].1);
        i := i + 1;
      }
    }

    /** `for key in required_keys: key_press_times.pop(key, None)` */
    method Forget(keys: set<string>)
      modifies this
      ensures times == old(times) - keys
    {
      var rest := keys;
      while rest != {}
        invariant rest <= keys
        invariant times == old(times) - (keys - rest)
        decreases rest
      {
        var k :| k in rest;
        times := times - {k};
        rest := rest - {k};
      }
    }
  }
}
