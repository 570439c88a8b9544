/**
  The macro table of `macro_manager.py`: the class-level dict `MacroManager.MACROS`
  from a hotkey (its key names joined by '+') to the ordered list of action
  strings it triggers. The class attribute becomes the field of one object.
 */
module MacroTable {
  import opened PyDict

  /** A table from hotkey to action list, in insertion order. */
  type Macros = Dict<string, seq<string>>

  /** The dict literal `MACROS` is initialised with. */
  function DefaultMacros(): (d: Macros)
    ensures d.Valid()
    ensures |d.order| == 5
    ensures forall h :: h in d.items ==> d.items[h] != []
  {
    var order := ["ctrl_l+alt_l+r", "ctrl_l+alt_l+l", "ctrl_l+alt_l+f", "ctrl_l+alt_l+.", "ctrl_l+alt_l+/"];
    var d := Dict(map[
      "ctrl_l+alt_l+r" := ["KEYS:right", "TEXT:Hello"],
      "ctrl_l+alt_l+l" := ["KEYS:left"],
      "ctrl_l+alt_l+f" := ["KEYS:f8"],
      "ctrl_l+alt_l+." := ["KEYS:ctrl_l+right"],
      "ctrl_l+alt_l+/" := ["KEYS:ctrl_l+left"]
    ], order);
    assert forall i :: 0 <= i < 5 ==> order[i][13] == "rlf./"[i];
    d
  }

  /** The table has exactly five hotkeys, the first fires "right" then types "Hello". */
  lemma DefaultMacrosContents()
    ensures |DefaultMacros().items| == 5
    ensures DefaultMacros().Items()[0] == ("ctrl_l+alt_l+r", ["KEYS:right", "TEXT:Hello"])
  {
    var d := DefaultMacros();
    assert d.items.Keys == set i | 0 <= i < 5 :: d.order[i];
    DistinctCard(d.order);
  }

  /** A sequence without repetitions has as many distinct elements as positions. */
  lemma {:induction false} DistinctCard(s: seq<string>)
    requires Distinct(s)
    ensures |set i | 0 <= i < |s| :: s[i]| == |s|
  {
    if s != [] {
      var last := |s| - 1;
      DistinctCard(s[..last]);
      var front := set i | 0 <= i < last :: s[..last][i];
      assert (set i | 0 <= i < |s| :: s[i]) == front + {s[last]};
      assert s[last] !in front;
    }
  }

  /** Deleting a hotkey twice leaves the table as deleting it once. */
  lemma DeleteIdempotent(d: Macros, hotkey: string)
    requires d.Valid()
    ensures d.Remove(hotkey).Remove(hotkey) == d.Remove(hotkey)
    ensures hotkey !in d.items ==> d.Remove(hotkey) == d
  {
    RemoveIdempotent(d, hotkey);
    if hotkey !in d.items {
      RemoveAbsent(d, hotkey);
    }
  }

  /**
    Renaming through `edit_macro`: the new hotkey maps to the single new action,
    the old one is gone unless it is the new one, every other entry stays. The
    edited entry moves to the end, unless the new hotkey already had an entry of
    its own, which then keeps its place.
   */
  lemma EditRenames(d: Macros, oldHotkey: string, newHotkey: string, newAction: string)
    requires d.Valid() && oldHotkey in d.items
    ensures var e := d.Remove(oldHotkey).Put(newHotkey, [newAction]);
      && e.Valid()
      && e.items[newHotkey] == [newAction]
      && (oldHotkey != newHotkey ==> oldHotkey !in e.items)
      && (forall h :: h != oldHotkey && h != newHotkey ==> (h in e.items <==> h in d.items))
      && (forall h :: h in d.items && h != oldHotkey && h != newHotkey ==> e.items[h] == d.items[h])
      && e.order == Without(d.order, oldHotkey) + (if newHotkey in d.items && newHotkey != oldHotkey then [] else [newHotkey])
  {
    RemoveValid(d, oldHotkey);
    PutValid(d.Remove(oldHotkey), newHotkey, [newAction]);
    WithoutMembers(d.order, oldHotkey);
  }

  class MacroManager {
    var macros: Macros

    ghost predicate Valid()
      reads this
    {
      macros.Valid()
    }

    constructor()
      ensures Valid() && macros == DefaultMacros()
    {
      macros := DefaultMacros();
    }

    /**
      `get_macros`: the current table. The source hands out the dict object
      itself; here callers receive its value.
     */
    function GetMacros(): (d: Macros)
      reads this
      requires Valid()
      ensures d.Valid()
    {
      macros
    }

    /** `add_macro`: the hotkey now maps to the one-action list, whatever it held before. */
    method AddMacro(hotkey: string, action: string)
      requires Valid()
      modifies this
      ensures Valid()
      ensures macros.items == old(macros.items)[hotkey := [action]]
      ensures macros.order == if hotkey in old(macros.items) then old(macros.order) else old(macros.order) + [hotkey]
    {
      PutValid(macros, hotkey, [action]);
      macros := macros.Put(hotkey, [action]);
    }

    /** `edit_macro`: nothing happens when the old hotkey is absent; otherwise it is deleted and the new one set. */
    method EditMacro(oldHotkey: string, newHotkey: string, newAction: string)
      requires Valid()
      modifies this
      ensures Valid()
      ensures oldHotkey !in old(macros.items) ==> macros == old(macros)
      ensures oldHotkey in old(macros.items) ==>
        && macros == old(macros).Remove(oldHotkey).Put(newHotkey, [newAction])
        && macros.items == (old(macros.items) - {oldHotkey})[newHotkey := [newAction]]
    {
      if oldHotkey !in macros.items {
        return;
      }
      RemoveValid(macros, oldHotkey);
      macros := macros.Remove(oldHotkey);
      PutValid(macros, newHotkey, [newAction]);
      macros := macros.Put(newHotkey, [newAction]);
    }

    /** `delete_macro`: the hotkey is removed when present; an absent hotkey is only logged. */
    method DeleteMacro(hotkey: string)
      requires Valid()
      modifies this
      ensures Valid()
      ensures macros.items == old(macros.items) - {hotkey}
      ensures macros == old(macros).Remove(hotkey)
      ensures hotkey !in old(macros.items) ==> macros == old(macros)
    {
      if hotkey in macros.items {
        RemoveValid(macros, hotkey);
        macros := macros.Remove(hotkey);
      } else {
        RemoveAbsent(macros, hotkey);
      }
    }

    /** `add_actions`: the hotkey now maps to the given list, other entries stay. */
    method AddActions(hotkey: string, actions: seq<string>)
      requires Valid()
      modifies this
      ensures Valid()
      ensures macros.items == old(macros.items)[hotkey := actions]
      ensures macros.order == if hotkey in old(macros.items) then old(macros.order) else old(macros.order) + [hotkey]
    {
      PutValid(macros, hotkey, actions);
      macros := macros.Put(hotkey, actions);
    }
  }
}
