/**
  The values of the first, single-file version of the program (`main.py`):
  its `MACROS` literal, the `macros` database table (hotkey, comma-joined
  actions), the lines of the macro list box, and how the edit and delete
  buttons read a hotkey back from a list-box line.
 */
module LegacyTable {
  import opened Wrappers
  import opened Strings
  import opened PyDict
  import opened MacroTable

  const HOST := "10.0.0.221"
  const PORT := 65432
  const SHARED_SECRET := "JosueAlemanIsASecretPassword"
  const AUTH_SUCCESS := "AUTH_SUCCESS"
  const AUTH_FAILED := "AUTH_FAILED"
  const DB_NAME := "macros.db"

  /** Every hotkey has at least one action, so its list-box line can show the first. */
  ghost predicate ActionsPresent(macros: Macros) {
    forall h :: h in macros.items ==> macros.items[h] != []
  }

  /** The `MACROS` literal of this version. */
  function InitialMacros(): (d: Macros)
    ensures d.Valid() && ActionsPresent(d)
    ensures |d.order| == 5
    ensures forall h :: h in d.items ==> |h| == 14 && h[..13] == "ctrl_l+alt_l+"
    ensures "ctrl_l+alt_l+," in d.items && d.items["ctrl_l+alt_l+,"] == ["KEYS:ctrl_l+left"]
  {
    var order := ["ctrl_l+alt_l+r", "ctrl_l+alt_l+l", "ctrl_l+alt_l+f", "ctrl_l+alt_l+.", "ctrl_l+alt_l+,"];
    var d := Dict(map[
      "ctrl_l+alt_l+r" := ["KEYS:right"],
      "ctrl_l+alt_l+l" := ["KEYS:left"],
      "ctrl_l+alt_l+f" := ["KEYS:f8"],
      "ctrl_l+alt_l+." := ["KEYS:ctrl_l+right"],
      "ctrl_l+alt_l+," := ["KEYS:ctrl_l+left"]
    ], order);
    assert forall i :: 0 <= i < 5 ==> order[i][13] == "rlf.,"[i];
    assert forall i :: 0 <= i < 5 ==> |order[i]| == 14 && order[i][..13] == "ctrl_l+alt_l+";
    d
  }

  /**
    The `macros` table, keyed by its primary key `hotkey`, rows in the order
    `SELECT *` returns them (the order they were inserted in).
   */
  type Table = Dict<string, string>

  /**
    `INSERT OR REPLACE INTO macros VALUES (h, a)`: a row with the same key is
    deleted and a new row is inserted after all others.
   */
  function Upsert(db: Table, h: string, a: string): (r: Table)
    requires db.Valid()
    ensures r.Valid()
    ensures r.items == db.items[h := a]
  {
    RemoveValid(db, h);
    PutValid(db.Remove(h), h, a);
    db.Remove(h).Put(h, a)
  }

  /** The replaced row comes last, the others keep their order. */
  lemma UpsertOrder(db: Table, h: string, a: string)
    requires db.Valid()
    ensures Upsert(db, h, a).order == Without(db.order, h) + [h]
  {
    WithoutMembers(db.order, h);
  }

  /** No two rows share a hotkey. */
  ghost predicate DistinctKeys<V>(rows: seq<(string, V)>) {
    forall i, j :: 0 <= i < j < |rows| ==> rows[i].0 != rows[j].0
  }

  /** The hotkeys of a list of rows. */
  function Hotkeys<V>(rows: seq<(string, V)>): set<string>
    decreases |rows|
  {
    if rows == [] then {} else Hotkeys(rows[..|rows| - 1]) + {rows[|rows| - 1].0}
  }

  /** A hotkey is among the rows' hotkeys exactly when some row carries it. */
  lemma {:induction false} HotkeysMembers<V>(rows: seq<(string, V)>)
    ensures forall i :: 0 <= i < |rows| ==> rows[i].0 in Hotkeys(rows)
    ensures forall h :: h in Hotkeys(rows) ==> exists i :: 0 <= i < |rows| && rows[i].0 == h
    decreases |rows|
  {
    if rows != [] {
      var front := rows[..|rows| - 1];
      HotkeysMembers(front);
      assert forall i :: 0 <= i < |front| ==> front[i] == rows[i];
    }
  }

  /** The rows of a dict carry its keys, each once. */
  lemma ItemsHotkeys<V>(d: Dict<string, V>)
    requires d.Valid()
    ensures DistinctKeys(d.Items())
    ensures Hotkeys(d.Items()) == d.items.Keys
  {
    var rows := d.Items();
    HotkeysMembers(rows);
    forall h | h in d.items ensures h in Hotkeys(rows) {
      var i :| 0 <= i < |d.order| && d.order[i] == h;
      assert rows[i].0 == h;
    }
  }

  /** `MACROS[hotkey] = action.split(',')` for each row in turn (`load_macros_from_db`). */
  function LoadRows(macros: Macros, rows: seq<(string, string)>): Macros
    decreases |rows|
  {
    if rows == [] then macros
    else
      var last := rows[|rows| - 1];
      LoadRows(macros, rows[..|rows| - 1]).Put(last.0, Split(last.1, ','))
  }

  /** Loading keeps the dict well formed. */
  lemma {:induction false} LoadRowsValid(macros: Macros, rows: seq<(string, string)>)
    requires macros.Valid()
    ensures LoadRows(macros, rows).Valid()
    decreases |rows|
  {
    if rows != [] {
      var last := rows[|rows| - 1];
      LoadRowsValid(macros, rows[..|rows| - 1]);
      PutValid(LoadRows(macros, rows[..|rows| - 1]), last.0, Split(last.1, ','));
    }
  }

  /** The hotkeys after loading are the old ones and the rows' ones. */
  lemma {:induction false} LoadRowsKeys(macros: Macros, rows: seq<(string, string)>)
    ensures LoadRows(macros, rows).items.Keys == macros.items.Keys + Hotkeys(rows)
    decreases |rows|
  {
    if rows != [] {
      LoadRowsKeys(macros, rows[..|rows| - 1]);
    }
  }

  /** A hotkey no row carries keeps its list. */
  lemma {:induction false} LoadRowsKeeps(macros: Macros, rows: seq<(string, string)>, h: string)
    requires h in macros.items && h !in Hotkeys(rows)
    ensures h in LoadRows(macros, rows).items && LoadRows(macros, rows).items[h] == macros.items[h]
    decreases |rows|
  {
    if rows != [] {
      LoadRowsKeeps(macros, rows[..|rows| - 1], h);
    }
  }

  /** With distinct hotkeys, every row's hotkey holds its split actions after loading. */
  lemma {:induction false} LoadRowsValues(macros: Macros, rows: seq<(string, string)>, i: nat)
    requires DistinctKeys(rows) && i < |rows|
    ensures rows[i].0 in LoadRows(macros, rows).items
    ensures LoadRows(macros, rows).items[rows[i].0] == Split(rows[i].1, ',')
    decreases |rows|
  {
    var front, last := rows[..|rows| - 1], rows[|rows| - 1];
    if i < |front| {
      assert rows[i] == front[i] && rows[i].0 != last.0;
      LoadRowsValues(macros, front, i);
    }
  }

  /**
    `load_macros_from_db` over a whole table: the table's hotkeys take their
    split actions, the others keep theirs, and nothing else appears.
   */
  lemma LoadTable(macros: Macros, db: Table)
    requires macros.Valid() && db.Valid()
    ensures var r := LoadRows(macros, db.Items());
      && r.Valid()
      && r.items.Keys == macros.items.Keys + db.items.Keys
      && (forall h :: h in db.items ==> r.items[h] == Split(db.items[h], ','))
      && (forall h :: h in macros.items && h !in db.items ==> r.items[h] == macros.items[h])
  {
    var rows := db.Items();
    ItemsHotkeys(db);
    LoadRowsValid(macros, rows);
    LoadRowsKeys(macros, rows);
    forall h | h in db.items ensures LoadRows(macros, rows).items[h] == Split(db.items[h], ',') {
      var i :| 0 <= i < |db.order| && db.order[i] == h;
      assert rows[i] == (h, db.items[h]);
      LoadRowsValues(macros, rows, i);
    }
    forall h | h in macros.items && h !in db.items ensures LoadRows(macros, rows).items[h] == macros.items[h] {
      LoadRowsKeeps(macros, rows, h);
    }
  }

  /** Every hotkey keeps an action after `load_macros_from_db`. */
  lemma LoadedActionsPresent(macros: Macros, db: Table)
    requires macros.Valid() && db.Valid() && ActionsPresent(macros)
    ensures ActionsPresent(LoadRows(macros, db.Items()))
  {
    LoadTable(macros, db);
  }

  /**
    `INSERT OR REPLACE` of `(hotkey, ','.join(actions))` for each received
    entry in turn (`sync_macros_to_db` after its `DELETE`).
   */
  function SyncRows(db: Table, received: seq<(string, seq<string>)>): (r: Table)
    requires db.Valid()
    ensures r.Valid()
    decreases |received|
  {
    if received == [] then db
    else
      var last := received[|received| - 1];
      Upsert(SyncRows(db, received[..|received| - 1]), last.0, Join(last.1, ','))
  }

  /** The table after writing holds its old hotkeys and the received ones. */
  lemma {:induction false} SyncRowsKeys(db: Table, received: seq<(string, seq<string>)>)
    requires db.Valid()
    ensures SyncRows(db, received).items.Keys == db.items.Keys + Hotkeys(received)
    decreases |received|
  {
    if received != [] {
      SyncRowsKeys(db, received[..|received| - 1]);
    }
  }

  /** With distinct hotkeys, every received hotkey holds its joined actions after writing. */
  lemma {:induction false} SyncRowsValues(db: Table, received: seq<(string, seq<string>)>, i: nat)
    requires db.Valid() && DistinctKeys(received) && i < |received|
    ensures received[i].0 in SyncRows(db, received).items
    ensures SyncRows(db, received).items[received[i].0] == Join(received[i].1, ',')
    decreases |received|
  {
    var front, last := received[..|received| - 1], received[|received| - 1];
    var before := SyncRows(db, front);
    var joined := Join(last.1, ',');
    assert SyncRows(db, received) == Upsert(before, last.0, joined);
    assert SyncRows(db, received).items == before.items[last.0 := joined];
    if i < |front| {
      assert received[i] == front[i] && received[i].0 != last.0;
      SyncRowsValues(db, front, i);
    } else {
      assert received[i] == last;
    }
  }

  /** No action holds a comma, and every list has one action at least. */
  ghost predicate CommaFree(received: seq<(string, seq<string>)>) {
    forall i :: 0 <= i < |received| ==> received[i].1 != [] && forall a :: a in received[i].1 ==> ',' !in a
  }

  /**
    A table written by `sync_macros_to_db` and read back by
    `load_macros_from_db` gives every received hotkey its action list back,
    when no action holds a comma.
   */
  lemma SyncThenLoad(macros: Macros, received: seq<(string, seq<string>)>)
    requires macros.Valid() && DistinctKeys(received) && CommaFree(received)
    ensures var r := LoadRows(macros, SyncRows(Empty(), received).Items());
      forall i :: 0 <= i < |received| ==> received[i].0 in r.items && r.items[received[i].0] == received[i].1
  {
    var db := SyncRows(Empty(), received);
    var r := LoadRows(macros, db.Items());
    LoadTable(macros, db);
    forall i | 0 <= i < |received| ensures received[i].0 in r.items && r.items[received[i].0] == received[i].1 {
      var (h, actions) := received[i];
      SyncRowsValues(Empty(), received, i);
      assert h in db.items && db.items[h] == Join(actions, ',');
      assert r.items[h] == Split(Join(actions, ','), ',');
      SplitJoin(actions, ',');
    }
  }

  const HOTKEY_LABEL := "Hotkey: "
  const ACTION_LABEL := "Action: "

  /** The list-box line of a macro: its hotkey and its first action. */
  function ListEntry(h: string, actions: seq<string>): string
    requires actions != []
  {
    HOTKEY_LABEL + h + ", " + ACTION_LABEL + actions[0]
  }

  /** The lines `load_macros_into_listbox` shows, one per macro, in table order. */
  function Listing(macros: Macros): (lines: seq<string>)
    requires macros.Valid() && ActionsPresent(macros)
  {
    seq(|macros.order|, i requires 0 <= i < |macros.order| => ListEntry(macros.order[i], macros.items[macros.order[i]]))
  }

  /**
    How `edit_macro` reads a list-box line: split at ", " into exactly two
    fields, then take what follows the first ": " of each; None where the
    unpacking or the indexing raises.
   */
  function EditParse(entry: string): Option<(string, string)> {
    var fields := SplitOn(entry, ", ");
    if |fields| != 2 then None
    else
      var hp, ap := SplitOn(fields[0], ": "), SplitOn(fields[1], ": ");
      if |hp| < 2 || |ap| < 2 then None else Some((hp[1], ap[1]))
  }

  /** A string the list-box line can carry: it holds neither ", " nor ": ". */
  predicate Listable(s: string) {
    !Contains(s, ", ") && !Contains(s, ": ")
  }

  /** A label followed by a listable string holds no ", ". */
  lemma LabelledWithoutComma(prefix: string, s: string)
    requires prefix == HOTKEY_LABEL || prefix == ACTION_LABEL
    requires Listable(s)
    ensures !Contains(prefix + s, ", ")
  {
    if prefix == HOTKEY_LABEL {
      assert ',' !in HOTKEY_LABEL;
    } else {
      assert ',' !in ACTION_LABEL;
    }
    LacksFirstChar(prefix, ", ");
    ConcatWithout(prefix, s, ", ");
  }

  /** What follows a label's ": " in a labelled listable string. */
  lemma LabelledValue(name: string, s: string)
    requires name == "Hotkey" || name == "Action"
    requires Listable(s)
    ensures SplitOn(name + ": " + s, ": ") == [name, s]
  {
    LacksFirstChar(name, ": ");
    SplitOnAtFirst(name, s, ": ");
    SplitOnWithout(s, ": ");
  }

  /** The edit parse reads back the hotkey and first action of a line whose parts are listable. */
  lemma EditParseRoundTrip(h: string, actions: seq<string>)
    requires actions != [] && Listable(h) && Listable(actions[0])
    ensures EditParse(ListEntry(h, actions)) == Some((h, actions[0]))
  {
    var a := actions[0];
    var first, second := HOTKEY_LABEL + h, ACTION_LABEL + a;
    var entry := ListEntry(h, actions);
    assert SplitOn(entry, ", ") == [first, second] by {
      assert entry == first + ", " + second;
      LabelledWithoutComma(HOTKEY_LABEL, h);
      LabelledWithoutComma(ACTION_LABEL, a);
      SplitOnAtFirst(first, second, ", ");
      SplitOnWithout(second, ", ");
    }
    assert SplitOn(first, ": ") == ["Hotkey", h] by {
      assert first == "Hotkey" + ": " + h;
      LabelledValue("Hotkey", h);
    }
    assert SplitOn(second, ": ") == ["Action", a] by {
      assert second == "Action" + ": " + a;
      LabelledValue("Action", a);
    }
  }

  /** How `delete_macro` reads a list-box line: the text after the first ':' up to the first ',', stripped. */
  function DeleteParseAsWritten(entry: string): Option<string> {
    var parts := Split(Split(entry, ',')[0], ':');
    if |parts| < 2 then None else Some(Strip(parts[1]))
  }

  /** A list-box line whose hotkey is `p` followed by `tail`, cut at the comma after `p`. */
  lemma EntryAfterHotkey(p: string, tail: string, action: string)
    requires tail == "" || tail == ","
    ensures ListEntry(p + tail, [action]) == HOTKEY_LABEL + p + [','] + (tail + " " + ACTION_LABEL + action)
  {
    var rest := ACTION_LABEL + action;
    assert ListEntry(p + tail, [action]) == (HOTKEY_LABEL + p) + (tail + ", ") + rest;
    assert tail + ", " == [','] + (tail + " ");
  }

  /** The delete parse finds `p` in a line whose hotkey field is `p`, up to the first comma. */
  lemma DeleteParseField(p: string, rest: string)
    requires ',' !in p && ':' !in p && IsStripped(p)
    ensures DeleteParseAsWritten(HOTKEY_LABEL + p + [','] + rest) == Some(p)
  {
    var field := HOTKEY_LABEL + p;
    assert ',' !in field;
    SplitAtFirst(field, rest, ',');
    assert field == "Hotkey" + [':'] + (" " + p);
    SplitAtFirst("Hotkey", " " + p, ':');
    SplitWithoutSeparator(" " + p, ':');
    StripAfterSpace(p);
  }

  /** The delete parse reads back a hotkey without ',' and ':', with nothing to strip. */
  lemma DeleteParsePlain(h: string, actions: seq<string>)
    requires actions != [] && ',' !in h && ':' !in h && IsStripped(h)
    ensures DeleteParseAsWritten(ListEntry(h, actions)) == Some(h)
  {
    var rest := "" + " " + ACTION_LABEL + actions[0];
    assert ListEntry(h, actions) == HOTKEY_LABEL + h + [','] + rest by {
      assert h + "" == h;
      assert ListEntry(h, actions) == ListEntry(h, [actions[0]]);
      EntryAfterHotkey(h, "", actions[0]);
    }
    DeleteParseField(h, rest);
  }

  /** The delete parse drops the comma a hotkey ends in. */
  lemma DeleteParseDropsComma(p: string, actions: seq<string>)
    requires actions != [] && ',' !in p && ':' !in p && IsStripped(p)
    ensures DeleteParseAsWritten(ListEntry(p + ",", actions)) == Some(p)
  {
    var rest := "," + " " + ACTION_LABEL + actions[0];
    assert ListEntry(p + ",", actions) == HOTKEY_LABEL + p + [','] + rest by {
      assert ListEntry(p + ",", actions) == ListEntry(p + ",", [actions[0]]);
      EntryAfterHotkey(p, ",", actions[0]);
    }
    DeleteParseField(p, rest);
  }

  /**
    The last hotkey of the initial table ends in a comma, so the delete
    button reads back a hotkey the table does not hold.
   */
  lemma DeleteParseTruncates(h: string)
    requires h == "ctrl_l+alt_l+,"
    ensures h in InitialMacros().items
    ensures DeleteParseAsWritten(ListEntry(h, InitialMacros().items[h])) == Some(h[..13])
    ensures h[..13] !in InitialMacros().items
  {
    var p := h[..13];
    assert h == p + ",";
    assert IsStripped(p) && ',' !in p && ':' !in p;
    DeleteParseDropsComma(p, InitialMacros().items[h]);
  }

  /** The hotkey the delete button should remove: the one the edit parse reads. */
  function DeleteParse(entry: string): Option<string> {
    match EditParse(entry)
    case Some((h, _)) => Some(h)
    case None => None
  }

  /** The corrected delete parse reads back the hotkey of every listable line, the comma hotkey included. */
  lemma DeleteParseRoundTrip(h: string, actions: seq<string>)
    requires actions != [] && Listable(h) && Listable(actions[0])
    ensures DeleteParse(ListEntry(h, actions)) == Some(h)
  {
    EditParseRoundTrip(h, actions);
  }

  /** The corrected parse reads back the hotkey of every line whose hotkey and first action hold no space. */
  lemma DeleteParseSpaceFree(h: string, actions: seq<string>)
    requires actions != [] && ' ' !in h && ' ' !in actions[0]
    ensures DeleteParse(ListEntry(h, actions)) == Some(h)
  {
    LacksSecondChar(h, ", ");
    LacksSecondChar(h, ": ");
    LacksSecondChar(actions[0], ", ");
    LacksSecondChar(actions[0], ": ");
    DeleteParseRoundTrip(h, actions);
  }

  /** The corrected parse reads the comma hotkey of the initial table back whole. */
  lemma DeleteParseKeepsComma(h: string, action: string)
    requires h == "ctrl_l+alt_l+," && action == "KEYS:ctrl_l+left"
    ensures DeleteParse(ListEntry(h, [action])) == Some(h)
  {
    assert ' ' !in h && ' ' !in action;
    DeleteParseSpaceFree(h, [action]);
  }

  /** A string without the separator's second character does not contain a two-character separator. */
  lemma LacksSecondChar(s: string, sep: string)
    requires |sep| == 2 && sep[1] !in s
    ensures !Contains(s, sep)
  {
  }

  /** Every hotkey stored in the table is in `MACROS`, and the other way round. */
  ghost predicate Agree(db: Table, macros: Macros) {
    forall h :: h in db.items <==> h in macros.items
  }

  /**
    The rows after `edit_macro`'s `DELETE` and plain `INSERT`, and whether the
    insert raised: it does when the new hotkey already has another row, and
    the connection's `finally` commits the delete all the same.
   */
  function EditRowsAsWritten(db: Table, existing: string, newHotkey: string, action: string): (Table, bool) {
    var removed := db.Remove(existing);
    if newHotkey in removed.items then (removed, true) else (removed.Put(newHotkey, action), false)
  }

  /**
    Renaming a macro onto another stored hotkey: the insert raises before
    `MACROS` is touched, and the edited macro is left in `MACROS` without
    its row.
   */
  lemma EditAsWrittenLosesRow(db: Table, macros: Macros, existing: string, newHotkey: string, action: string)
    requires Agree(db, macros) && existing in db.items && newHotkey in db.items && existing != newHotkey
    ensures var (rows, raised) := EditRowsAsWritten(db, existing, newHotkey, action);
      raised && existing !in rows.items && existing in macros.items && !Agree(rows, macros)
  {
  }

  /** The rows of the edit with `INSERT OR REPLACE` in place of the plain insert. */
  function EditRows(db: Table, existing: string, newHotkey: string, action: string): (r: Table)
    requires db.Valid()
  {
    RemoveValid(db, existing);
    Upsert(db.Remove(existing), newHotkey, action)
  }

  /** The corrected edit keeps the table and `MACROS` in agreement, the rename onto a stored hotkey included. */
  lemma EditAgrees(db: Table, macros: Macros, existing: string, newHotkey: string, action: string)
    requires db.Valid() && macros.Valid() && Agree(db, macros) && existing in macros.items
    ensures var rows := EditRows(db, existing, newHotkey, action);
      && rows.items == (db.items - {existing})[newHotkey := action]
      && Agree(rows, macros.Remove(existing).Put(newHotkey, [action]))
  {
    EditRenames(macros, existing, newHotkey, action);
  }

  /** `update_db_and_dict` keeps the table and `MACROS` in agreement. */
  lemma AddAgrees(db: Table, macros: Macros, h: string, action: string)
    requires db.Valid() && Agree(db, macros)
    ensures Agree(Upsert(db, h, action), macros.Put(h, [action]))
  {
  }

  /** `delete_macro` with the corrected parse keeps the table and `MACROS` in agreement. */
  lemma DeleteAgrees(db: Table, macros: Macros, h: string)
    requires Agree(db, macros)
    ensures Agree(db.Remove(h), macros.Remove(h))
  {
  }
}
