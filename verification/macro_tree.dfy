/**
  `MacroActionTree` of `macro_tree.py`: the two-column Treeview listing each
  macro with its actions. The widget is modelled by its rows, in display
  order, each with the item id Tk gave it, and by the single selected item.
 */
module MacroTree {
  import opened Wrappers

  /** One Treeview row: its item id and its two values. */
  datatype Item = Item(iid: nat, macro: string, actions: seq<string>)

  /** Position of the first row showing `macro` (`find_item_by_macro`), or None. */
  function FirstMatch(rows: seq<Item>, macro: string): (r: Option<nat>)
    ensures r.Some? ==> r.value < |rows| && rows[r.value].macro == macro
    ensures r.Some? ==> forall j :: 0 <= j < r.value ==> rows[j].macro != macro
    ensures r.None? <==> forall j :: 0 <= j < |rows| ==> rows[j].macro != macro
  {
    if rows == [] then None
    else if rows[0].macro == macro then Some(0)
    else match FirstMatch(rows[1..], macro)
      case None => None
      case Some(i) => Some(i + 1)
  }

  /** Position of the row with item id `iid`, or None. */
  function PositionOf(rows: seq<Item>, iid: nat): (r: Option<nat>)
    ensures r.Some? ==> r.value < |rows| && rows[r.value].iid == iid
    ensures r.None? <==> forall j :: 0 <= j < |rows| ==> rows[j].iid != iid
  {
    if rows == [] then None
    else if rows[0].iid == iid then Some(0)
    else match PositionOf(rows[1..], iid)
      case None => None
      case Some(i) => Some(i + 1)
  }

  /** The rows after `insert`: unchanged when the macro is shown already, else one more row at the end. */
  function Inserted(rows: seq<Item>, macro: string, actions: seq<string>, iid: nat): seq<Item> {
    if FirstMatch(rows, macro).Some? then rows else rows + [Item(iid, macro, actions)]
  }

  /** The rows after `edit_by_macro`: the first matching row gets the new values in place. */
  function Edited(rows: seq<Item>, macro: string, newMacro: string, newActions: seq<string>): seq<Item> {
    match FirstMatch(rows, macro)
    case None => rows
    case Some(i) => rows[i := Item(rows[i].iid, newMacro, newActions)]
  }

  /** The rows after `delete_by_macro`: the first matching row is gone, the others keep their order. */
  function Deleted(rows: seq<Item>, macro: string): seq<Item> {
    match FirstMatch(rows, macro)
    case None => rows
    case Some(i) => rows[..i] + rows[i + 1..]
  }

  /** The selection after `delete_by_macro`: Tk drops the deleted row from it. */
  function SelectionAfterDelete(rows: seq<Item>, macro: string, selection: Option<nat>): Option<nat> {
    match FirstMatch(rows, macro)
    case Some(i) => if selection == Some(rows[i].iid) then None else selection
    case None => selection
  }

  /** The macros shown, in row order. */
  function Shown(rows: seq<Item>): (macros: seq<string>)
    ensures |macros| == |rows|
    ensures forall i :: 0 <= i < |rows| ==> macros[i] == rows[i].macro
  {
    seq(|rows|, i requires 0 <= i < |rows| => rows[i].macro)
  }

  /** No macro is shown twice. */
  predicate UniqueMacros(rows: seq<Item>) {
    forall i, j :: 0 <= i < j < |rows| ==> rows[i].macro != rows[j].macro
  }

  /** Inserting keeps every macro shown once, and afterwards the macro is shown. */
  lemma InsertedUnique(rows: seq<Item>, macro: string, actions: seq<string>, iid: nat)
    requires UniqueMacros(rows)
    ensures UniqueMacros(Inserted(rows, macro, actions, iid))
    ensures FirstMatch(Inserted(rows, macro, actions, iid), macro).Some?
  {
    if FirstMatch(rows, macro).None? {
      var r := Inserted(rows, macro, actions, iid);
      assert r[|rows|].macro == macro;
    }
  }

  /** Deleting a macro just inserted gives the rows back. */
  lemma InsertThenDelete(rows: seq<Item>, macro: string, actions: seq<string>, iid: nat)
    requires FirstMatch(rows, macro).None?
    ensures Deleted(Inserted(rows, macro, actions, iid), macro) == rows
  {
    var r := Inserted(rows, macro, actions, iid);
    assert r[|rows|].macro == macro;
    assert FirstMatch(r, macro) == Some(|rows|);
    assert r[..|rows|] == rows;
  }

  /** On rows showing every macro once, a deleted macro is no longer shown, and the rest stay unique. */
  lemma DeletedGone(rows: seq<Item>, macro: string)
    requires UniqueMacros(rows)
    ensures FirstMatch(Deleted(rows, macro), macro).None?
    ensures UniqueMacros(Deleted(rows, macro))
  {
    match FirstMatch(rows, macro)
    case None =>
    case Some(i) =>
      var d := rows[..i] + rows[i + 1..];
      RemovedAt(rows, i);
      forall j | 0 <= j < |d| ensures d[j].macro != macro {
        assert d[j] == rows[if j < i then j else j + 1];
      }
      forall a, b | 0 <= a < b < |d| ensures d[a].macro != d[b].macro {
        assert d[a] == rows[if a < i then a else a + 1];
        assert d[b] == rows[if b < i then b else b + 1];
      }
  }

  /** Deleting a macro leaves every other macro shown exactly when it was shown before. */
  lemma DeletedKeepsOthers(rows: seq<Item>, macro: string, other: string)
    requires other != macro
    ensures FirstMatch(Deleted(rows, macro), other).Some? <==> FirstMatch(rows, other).Some?
  {
    match FirstMatch(rows, macro)
    case None =>
    case Some(i) =>
      var d := rows[..i] + rows[i + 1..];
      RemovedAt(rows, i);
      match FirstMatch(rows, other)
      case Some(k) =>
        assert k != i;
        assert d[if k < i then k else k - 1].macro == other;
      case None =>
        if FirstMatch(d, other).Some? {
          var j := FirstMatch(d, other).value;
          assert rows[if j < i then j else j + 1].macro == other;
        }
  }

  /** The rows left after removing position `i`, position by position. */
  lemma RemovedAt(rows: seq<Item>, i: nat)
    requires i < |rows|
    ensures var d := rows[..i] + rows[i + 1..];
      |d| == |rows| - 1 && forall j :: 0 <= j < |d| ==> d[j] == rows[if j < i then j else j + 1]
  {
  }

  /** Editing keeps the number and the order of the rows; only the matched row changes. */
  lemma EditedInPlace(rows: seq<Item>, macro: string, newMacro: string, newActions: seq<string>)
    ensures |Edited(rows, macro, newMacro, newActions)| == |rows|
    ensures forall j :: 0 <= j < |rows| && Some(j) != FirstMatch(rows, macro) ==> Edited(rows, macro, newMacro, newActions)[j] == rows[j]
    ensures FirstMatch(rows, macro).Some? ==>
      var i := FirstMatch(rows, macro).value;
      Edited(rows, macro, newMacro, newActions)[i] == Item(rows[i].iid, newMacro, newActions)
  {
  }

  /** Editing keeps every macro shown once when the new macro is not shown on another row. */
  lemma EditedUnique(rows: seq<Item>, macro: string, newMacro: string, newActions: seq<string>)
    requires UniqueMacros(rows)
    requires newMacro != macro ==> FirstMatch(rows, newMacro).None?
    ensures UniqueMacros(Edited(rows, macro, newMacro, newActions))
  {
    match FirstMatch(rows, macro)
    case None =>
    case Some(i) =>
      var e := Edited(rows, macro, newMacro, newActions);
      forall a, b | 0 <= a < b < |e| ensures e[a].macro != e[b].macro {
        if a == i || b == i {
          var other := if a == i then b else a;
          assert e[other] == rows[other] && rows[other].macro != macro;
        }
      }
  }

  /** Editing a macro to itself and its own actions changes nothing. */
  lemma EditToSelf(rows: seq<Item>, macro: string)
    requires FirstMatch(rows, macro).Some?
    ensures Edited(rows, macro, macro, rows[FirstMatch(rows, macro).value].actions) == rows
  {
    var i := FirstMatch(rows, macro).value;
    assert rows[i] == Item(rows[i].iid, macro, rows[i].actions);
  }

  class MacroActionTree {
    /** The Treeview's children, in display order. */
    var rows: seq<Item>
    /** The item id Tk gives the next inserted row. */
    var nextId: nat
    /** The selected item, if any (single selection). */
    var selection: Option<nat>

    /** Item ids are distinct and below the next one; the selection is a shown item. */
    ghost predicate Valid()
      reads this
    {
      && (forall i, j :: 0 <= i < j < |rows| ==> rows[i].iid != rows[j].iid)
      && (forall i :: 0 <= i < |rows| ==> rows[i].iid < nextId)
      && (selection.Some? ==> PositionOf(rows, selection.value).Some?)
    }

    constructor()
      ensures Valid() && rows == [] && selection == None
    {
      rows := [];
      nextId := 0;
      selection := None;
    }

    /** `find_item_by_macro`: the position of the first row showing `macro`. */
    method FindItemByMacro(macro: string) returns (found: Option<nat>)
      ensures found == FirstMatch(rows, macro)
    {
      var i := 0;
      while i < |rows|
        invariant 0 <= i <= |rows|
        invariant forall j :: 0 <= j < i ==> rows[j].macro != macro
      {
        if rows[i].macro == macro {
          FirstMatchAt(rows, macro, i);
          return Some(i);
        }
        i := i + 1;
      }
      return None;
    }

    /** `insert`: skip a macro already shown, else add a row at the end. */
    method Insert(macro: string, actions: seq<string>)
      requires Valid()
      modifies this
      ensures Valid()
      ensures rows == Inserted(old(rows), macro, actions, old(nextId))
      ensures nextId == if FirstMatch(old(rows), macro).Some? then old(nextId) else old(nextId) + 1
      ensures selection == old(selection)
    {
      var found := FindItemByMacro(macro);
      if found.Some? {
        return;
      }
      rows := rows + [Item(nextId, macro, actions)];
      nextId := nextId + 1;
      PositionAppend(old(rows), Item(old(nextId), macro, actions), selection);
    }

    /** `edit_by_macro`: give the first row showing `macro` the new values. */
    method EditByMacro(macro: string, newMacro: string, newActions: seq<string>)
      requires Valid()
      modifies this
      ensures Valid()
      ensures rows == Edited(old(rows), macro, newMacro, newActions)
      ensures nextId == old(nextId) && selection == old(selection)
    {
      var found := FindItemByMacro(macro);
      if found.Some? {
        var i := found.value;
        rows := rows[i := Item(rows[i].iid, newMacro, newActions)];
        PositionSameIds(old(rows), rows, selection);
      }
    }

    /** `delete_by_macro`: remove the first row showing `macro`; Tk drops it from the selection. */
    method DeleteByMacro(macro: string)
      requires Valid()
      modifies this
      ensures Valid()
      ensures rows == Deleted(old(rows), macro)
      ensures nextId == old(nextId)
      ensures selection == SelectionAfterDelete(old(rows), macro, old(selection))
    {
      var found := FindItemByMacro(macro);
      if found.Some? {
        DeleteAt(found.value);
      }
    }

    /** Tk's `delete` of the row at position `i`. */
    method DeleteAt(i: nat)
      requires Valid() && i < |rows|
      modifies this
      ensures Valid()
      ensures rows == old(rows)[..i] + old(rows)[i + 1..]
      ensures nextId == old(nextId)
      ensures selection == if old(selection) == Some(old(rows)[i].iid) then None else old(selection)
    {
      var gone := rows[i].iid;
      var before := rows;
      rows := rows[..i] + rows[i + 1..];
      if selection == Some(gone) {
        selection := None;
      } else if selection.Some? {
        PositionRemoved(before, i, selection.value);
      }
    }

    /** `get_all`: the (macro, actions) pairs in row order. */
    function GetAll(): (pairs: seq<(string, seq<string>)>)
      reads this
      ensures |pairs| == |rows|
      ensures forall i :: 0 <= i < |rows| ==> pairs[i] == (rows[i].macro, rows[i].actions)
    {
      seq(|rows|, i requires 0 <= i < |rows| reads this => (rows[i].macro, rows[i].actions))
    }

    /** `get_selected`: the selected row's values, or None for `(None, None)`. */
    function GetSelected(): (values: Option<(string, seq<string>)>)
      reads this
      requires Valid()
      ensures values.None? <==> selection.None?
      ensures values.Some? ==>
        exists i :: 0 <= i < |rows| && rows[i].iid == selection.value && values.value == (rows[i].macro, rows[i].actions)
    {
      match selection
      case None => None
      case Some(iid) =>
        var i := PositionOf(rows, iid).value;
        Some((rows[i].macro, rows[i].actions))
    }

    /** `clear_items`: delete every child, one after the other. */
    method ClearItems()
      requires Valid()
      modifies this
      ensures Valid()
      ensures rows == [] && selection == None && nextId == old(nextId)
    {
      var children := |rows|;
      var k := 0;
      while k < children
        invariant Valid()
        invariant 0 <= k <= children && rows == old(rows)[k..]
        invariant nextId == old(nextId)
      {
        DeleteAt(0);
        k := k + 1;
      }
      assert PositionOf(rows, 0).None?;
      selection := None;
    }

    /** `edit_selected`: give the selected row the new values, if a row is selected. */
    method EditSelected(newMacro: string, newActions: seq<string>)
      requires Valid()
      modifies this
      ensures Valid()
      ensures selection == old(selection) && nextId == old(nextId)
      ensures rows == match old(selection)
        case None => old(rows)
        case Some(iid) =>
          var i := PositionOf(old(rows), iid).value;
          old(rows)[i := Item(iid, newMacro, newActions)]
    {
      if selection.Some? {
        var i := PositionOf(rows, selection.value).value;
        rows := rows[i := Item(rows[i].iid, newMacro, newActions)];
        PositionSameIds(old(rows), rows, selection);
      }
    }

    /** `delete_selected`: remove the selected row, if a row is selected. */
    method DeleteSelected()
      requires Valid()
      modifies this
      ensures Valid()
      ensures selection == None && nextId == old(nextId)
      ensures rows == match old(selection)
        case None => old(rows)
        case Some(iid) =>
          var i := PositionOf(old(rows), iid).value;
          old(rows)[..i] + old(rows)[i + 1..]
    {
      if selection.Some? {
        DeleteAt(PositionOf(rows, selection.value).value);
      }
    }
  }

  /** A row showing `macro` with none before it is the first match. */
  lemma {:induction false} FirstMatchAt(rows: seq<Item>, macro: string, i: nat)
    requires i < |rows| && rows[i].macro == macro
    requires forall j :: 0 <= j < i ==> rows[j].macro != macro
    ensures FirstMatch(rows, macro) == Some(i)
  {
    if i > 0 {
      FirstMatchAt(rows[1..], macro, i - 1);
    }
  }

  /** A selected id found before an append is found after it. */
  lemma PositionAppend(rows: seq<Item>, item: Item, selection: Option<nat>)
    requires selection.Some? ==> PositionOf(rows, selection.value).Some?
    ensures selection.Some? ==> PositionOf(rows + [item], selection.value).Some?
  {
    if selection.Some? {
      var i := PositionOf(rows, selection.value).value;
      assert (rows + [item])[i].iid == selection.value;
    }
  }

  /** Rows with the same ids position a selected id alike. */
  lemma PositionSameIds(a: seq<Item>, b: seq<Item>, selection: Option<nat>)
    requires |a| == |b| && forall j :: 0 <= j < |a| ==> a[j].iid == b[j].iid
    requires selection.Some? ==> PositionOf(a, selection.value).Some?
    ensures selection.Some? ==> PositionOf(b, selection.value).Some?
  {
    if selection.Some? {
      var i := PositionOf(a, selection.value).value;
      assert b[i].iid == selection.value;
    }
  }

  /** An id other than the removed row's is still found. */
  lemma PositionRemoved(rows: seq<Item>, i: nat, iid: nat)
    requires i < |rows| && PositionOf(rows, iid).Some? && rows[i].iid != iid
    ensures PositionOf(rows[..i] + rows[i + 1..], iid).Some?
  {
    var k := PositionOf(rows, iid).value;
    var d := rows[..i] + rows[i + 1..];
    if k < i {
      assert d[k] == rows[k];
    } else {
      assert d[k - 1] == rows[k];
    }
  }
}
