/**
 * `KeyboardShortcutsProvider`: a `Map` from lower-cased key combinations to
 * callbacks, and the document-level `keydown` handler that composes the
 * combination of an event and fires the callback registered under it.
 *
 * A JavaScript `Map` keeps its keys in insertion order, and `set` on a
 * present key replaces the value where it stands; the registry is therefore
 * a sequence of entries with distinct keys. A callback is named by a number.
 */
module Shortcuts {
  import opened Wrappers
  import opened Seqs
  import Text

  datatype Shortcut = Shortcut(callback: nat, description: string)

  datatype Entry = Entry(key: string, shortcut: Shortcut)

  /** The parts of a `keydown` event the handler reads. */
  datatype KeyEvent = KeyEvent(key: string, ctrlKey: bool, altKey: bool, shiftKey: bool, tagName: string)

  predicate DifferentKeys(x: Entry, y: Entry) {
    x.key != y.key
  }

  /** No key is stored twice. */
  predicate KeysDistinct(entries: seq<Entry>) {
    Pairwise(entries, DifferentKeys)
  }

  /** `map.get(key)`. */
  function Get(entries: seq<Entry>, key: string): (r: Option<Shortcut>)
    ensures r.Some? <==> exists i :: 0 <= i < |entries| && entries[i].key == key
    ensures r.Some? ==> Entry(key, r.value) in entries
  {
    if entries == [] then None
    else if entries[0].key == key then Some(entries[0].shortcut)
    else
      var r := Get(entries[1..], key);
      assert forall i :: 1 <= i < |entries| ==> entries[i] == entries[1..][i - 1];
      r
  }

  /** `map.set(key, s)`: the value is replaced in place, or a new entry goes last. */
  function Set(entries: seq<Entry>, key: string, s: Shortcut): (r: seq<Entry>) {
    if exists i :: 0 <= i < |entries| && entries[i].key == key then
      seq(|entries|, i requires 0 <= i < |entries| => if entries[i].key == key then Entry(key, s) else entries[i])
    else entries + [Entry(key, s)]
  }

  /** `map.delete(key)`. */
  function Delete(entries: seq<Entry>, key: string): (r: seq<Entry>)
    ensures Subsequence(r, entries)
    ensures forall e :: e in r <==> e in entries && e.key != key
  {
    Filter(entries, (e: Entry) => e.key != key)
  }

  /** The key the handler looks up: `ctrl+`, `alt+`, `shift+` in that order, then the lower-cased key. */
  function ComboKey(e: KeyEvent): string {
    (if e.ctrlKey then "ctrl+" else "") + (if e.altKey then "alt+" else "")
      + (if e.shiftKey then "shift+" else "") + Text.Lower(e.key)
  }

  /** The event is typed into a text field, where shortcuts do not fire. */
  predicate InTextField(e: KeyEvent) {
    e.tagName == "INPUT" || e.tagName == "TEXTAREA"
  }

  /** The callback the handler calls for `e`, if any (EnhancedContexts.js lines 134-153). */
  function Fired(entries: seq<Entry>, isEnabled: bool, e: KeyEvent): Option<nat> {
    if !isEnabled || InTextField(e) then None
    else match Get(entries, ComboKey(e))
      case None => None
      case Some(s) => Some(s.callback)
  }

  // ---------------------------------------------------------------------
  // Properties of the map operations

  /** With distinct keys, the lookup finds the one entry under the key. */
  lemma {:induction false} GetAt(entries: seq<Entry>, i: nat)
    requires KeysDistinct(entries) && i < |entries|
    ensures Get(entries, entries[i].key) == Some(entries[i].shortcut)
  {
    if i > 0 {
      assert KeysDistinct(entries[1..]) by {
        forall a, b | 0 <= a < b < |entries[1..]|
          ensures DifferentKeys(entries[1..][a], entries[1..][b])
        {
          assert entries[1..][a] == entries[a + 1] && entries[1..][b] == entries[b + 1];
        }
      }
      assert DifferentKeys(entries[0], entries[i]);
      GetAt(entries[1..], i - 1);
    }
  }

  /**
   * `set` keeps the keys distinct, stores the value, and leaves every other
   * key as it was; a present key keeps its place in insertion order, and a
   * new one goes last.
   */
  lemma SetSpec(entries: seq<Entry>, key: string, s: Shortcut)
    requires KeysDistinct(entries)
    ensures KeysDistinct(Set(entries, key, s))
    ensures Get(Set(entries, key, s), key) == Some(s)
    ensures forall k :: k != key ==> Get(Set(entries, key, s), k) == Get(entries, k)
    ensures |entries| <= |Set(entries, key, s)|
      && forall j :: 0 <= j < |entries| ==> Set(entries, key, s)[j].key == entries[j].key
    ensures (exists i :: 0 <= i < |entries| && entries[i].key == key) ==> |Set(entries, key, s)| == |entries|
    ensures (forall i :: 0 <= i < |entries| ==> entries[i].key != key) ==> Set(entries, key, s) == entries + [Entry(key, s)]
  {
    if exists i :: 0 <= i < |entries| && entries[i].key == key {
      var i :| 0 <= i < |entries| && entries[i].key == key;
      SetPresent(entries, key, s, i);
      SetPresentShape(entries, key, s, i);
    } else {
      SetAbsent(entries, key, s);
      assert Set(entries, key, s) == entries + [Entry(key, s)];
    }
  }

  /** `set` on a present key replaces its value where it stands. */
  lemma SetPresent(entries: seq<Entry>, key: string, s: Shortcut, i: nat)
    requires KeysDistinct(entries) && i < |entries| && entries[i].key == key
    ensures KeysDistinct(Set(entries, key, s))
    ensures Get(Set(entries, key, s), key) == Some(s)
    ensures forall k :: k != key ==> Get(Set(entries, key, s), k) == Get(entries, k)
  {
    var r := Set(entries, key, s);
    SetPresentShape(entries, key, s, i);
    assert KeysDistinct(r) by {
      forall a, b | 0 <= a < b < |r|
        ensures DifferentKeys(r[a], r[b])
      {
        assert DifferentKeys(entries[a], entries[b]);
      }
    }
    GetAt(r, i);
    forall k | k != key
      ensures Get(r, k) == Get(entries, k)
    {
      SetPresentOther(entries, key, s, i, k);
    }
  }

  /** `set` on a present key: same length, the entry under the key replaced, the rest as they were. */
  lemma SetPresentShape(entries: seq<Entry>, key: string, s: Shortcut, i: nat)
    requires i < |entries| && entries[i].key == key
    ensures |Set(entries, key, s)| == |entries|
    ensures forall j :: 0 <= j < |entries| ==>
      Set(entries, key, s)[j] == if entries[j].key == key then Entry(key, s) else entries[j]
  {
  }

  /** After `set` on a present key, every other key reads as before. */
  lemma SetPresentOther(entries: seq<Entry>, key: string, s: Shortcut, i: nat, k: string)
    requires KeysDistinct(entries) && KeysDistinct(Set(entries, key, s))
    requires i < |entries| && entries[i].key == key && k != key
    ensures Get(Set(entries, key, s), k) == Get(entries, k)
  {
    var r := Set(entries, key, s);
    SetPresentShape(entries, key, s, i);
    if j :| 0 <= j < |entries| && entries[j].key == k {
      assert r[j] == entries[j];
      GetAt(r, j);
      GetAt(entries, j);
    } else {
      assert forall j :: 0 <= j < |r| ==> r[j].key != k;
    }
  }

  /** `set` on an absent key appends an entry. */
  lemma SetAbsent(entries: seq<Entry>, key: string, s: Shortcut)
    requires KeysDistinct(entries)
    requires forall j :: 0 <= j < |entries| ==> entries[j].key != key
    ensures KeysDistinct(Set(entries, key, s))
    ensures Get(Set(entries, key, s), key) == Some(s)
    ensures forall k :: k != key ==> Get(Set(entries, key, s), k) == Get(entries, k)
  {
    var r := Set(entries, key, s);
    assert r == entries + [Entry(key, s)];
    assert KeysDistinct(r) by {
      forall a, b | 0 <= a < b < |r|
        ensures DifferentKeys(r[a], r[b])
      {
        if b < |entries| {
          assert r[a] == entries[a] && r[b] == entries[b];
        }
      }
    }
    GetAt(r, |entries|);
    forall k | k != key
      ensures Get(r, k) == Get(entries, k)
    {
      if j :| 0 <= j < |entries| && entries[j].key == k {
        assert r[j] == entries[j];
        GetAt(r, j);
        GetAt(entries, j);
      } else {
        assert forall j :: 0 <= j < |r| ==> r[j].key != k;
      }
    }
  }


  /** `delete` keeps the keys distinct, removes the key, and leaves every other key as it was. */
  lemma DeleteSpec(entries: seq<Entry>, key: string)
    requires KeysDistinct(entries)
    ensures KeysDistinct(Delete(entries, key))
    ensures Get(Delete(entries, key), key) == None
    ensures forall k :: k != key ==> Get(Delete(entries, key), k) == Get(entries, k)
  {
    var r := Delete(entries, key);
    SubsequencePairwise(r, entries, DifferentKeys);
    forall k | k != key
      ensures Get(r, k) == Get(entries, k)
    {
      if j :| 0 <= j < |entries| && entries[j].key == k {
        assert entries[j] in r;
        var i :| 0 <= i < |r| && r[i] == entries[j];
        GetAt(r, i);
        GetAt(entries, j);
      } else {
        assert forall i :: 0 <= i < |r| ==> r[i] in entries;
      }
    }
  }

  /** Deleting a key just added gives the registry back: `unregisterShortcut` undoes `registerShortcut`. */
  lemma {:induction false} DeleteUndoesSet(entries: seq<Entry>, key: string, s: Shortcut)
    requires Get(entries, key).None?
    ensures Delete(Set(entries, key, s), key) == entries
  {
    assert forall i :: 0 <= i < |entries| ==> entries[i].key != key;
    var f := (e: Entry) => e.key != key;
    FilterAll(entries, f);
    FilterSnocDropped(entries, Entry(key, s), f);
  }

  // ---------------------------------------------------------------------
  // Properties of the handler

  /** The composed key is already lower case, so it can match a key stored by `registerShortcut`. */
  lemma ComboKeyLower(e: KeyEvent)
    ensures Text.Lower(ComboKey(e)) == ComboKey(e)
  {
    var c, a, s := (if e.ctrlKey then "ctrl+" else ""), (if e.altKey then "alt+" else ""), (if e.shiftKey then "shift+" else "");
    Text.LowerAppend(c + a + s, Text.Lower(e.key));
    Text.LowerAppend(c + a, s);
    Text.LowerAppend(c, a);
    Text.LowerIdempotent(e.key);
    Text.LowerNoCapitals(c);
    Text.LowerNoCapitals(a);
    Text.LowerNoCapitals(s);
  }

  /** The modifiers appear in the fixed order ctrl, alt, shift, ahead of the key itself. */
  lemma ComboKeyParts(e: KeyEvent)
    ensures e.ctrlKey ==> Text.StartsWith(ComboKey(e), "ctrl+")
    ensures !e.ctrlKey && e.altKey ==> Text.StartsWith(ComboKey(e), "alt+")
    ensures !e.ctrlKey && !e.altKey && e.shiftKey ==> Text.StartsWith(ComboKey(e), "shift+")
    ensures !e.ctrlKey && !e.altKey && !e.shiftKey ==> ComboKey(e) == Text.Lower(e.key)
    ensures ComboKey(e)[|ComboKey(e)| - |e.key|..] == Text.Lower(e.key)
  {
  }

  /** A shortcut registered under `key` fires for an event outside text fields whose combination is `key`. */
  lemma RegisteredFires(entries: seq<Entry>, key: string, s: Shortcut, e: KeyEvent)
    requires KeysDistinct(entries) && !InTextField(e) && ComboKey(e) == Text.Lower(key)
    ensures Fired(Set(entries, Text.Lower(key), s), true, e) == Some(s.callback)
  {
    SetSpec(entries, Text.Lower(key), s);
  }

  /** Nothing fires while shortcuts are disabled, in a text field, or for an unregistered combination. */
  lemma FiredOnlyWhenRegistered(entries: seq<Entry>, isEnabled: bool, e: KeyEvent)
    ensures Fired(entries, isEnabled, e).Some? <==>
      isEnabled && !InTextField(e) && exists i :: 0 <= i < |entries| && entries[i].key == ComboKey(e)
    ensures Fired(entries, isEnabled, e).Some? ==>
      exists d :: Entry(ComboKey(e), Shortcut(Fired(entries, isEnabled, e).value, d)) in entries
  {
  }

  // ---------------------------------------------------------------------
  // The provider

  class ShortcutRegistry {
    /** `shortcuts.current`. */
    var entries: seq<Entry>
    var isEnabled: bool

    constructor()
      ensures entries == [] && isEnabled
    {
      entries := [];
      isEnabled := true;
    }

    /** `registerShortcut(key, callback, description = '')`. */
    method Register(key: string, callback: nat, description: Option<string>)
      modifies this
      ensures entries == Set(old(entries), Text.Lower(key), Shortcut(callback, description.GetOr("")))
      ensures isEnabled == old(isEnabled)
    {
      entries := Set(entries, Text.Lower(key), Shortcut(callback, description.GetOr("")));
    }

    /** `unregisterShortcut(key)`. */
    method Unregister(key: string)
      modifies this
      ensures entries == Delete(old(entries), Text.Lower(key))
      ensures isEnabled == old(isEnabled)
    {
      entries := Delete(entries, Text.Lower(key));
    }

    /** `getShortcuts()`: the keys and descriptions, in insertion order. */
    method GetShortcuts() returns (list: seq<(string, string)>)
      ensures |list| == |entries|
      ensures forall i :: 0 <= i < |entries| ==> list[i] == (entries[i].key, entries[i].shortcut.description)
    {
      list := [];
      for i := 0 to |entries|
        invariant |list| == i
        invariant forall k :: 0 <= k < i ==> list[k] == (entries[k].key, entries[k].shortcut.description)
      {
        list := list + [(entries[i].key, entries[i].shortcut.description)];
      }
    }

    method SetIsEnabled(enabled: bool)
      modifies this
      ensures isEnabled == enabled && entries == old(entries)
    {
      isEnabled := enabled;
    }

    /** The `keydown` listener: the callback it calls, if any. */
    method HandleKeyDown(e: KeyEvent) returns (fired: Option<nat>)
      ensures fired == Fired(entries, isEnabled, e)
    {
      if !isEnabled {
        return None;
      }
      if e.tagName == "INPUT" || e.tagName == "TEXTAREA" {
        return None;
      }
      var key := Text.Lower(e.key);
      var shortcutKey := "";
      if e.ctrlKey {
        shortcutKey := shortcutKey + "ctrl+";
      }
      assert shortcutKey == (if e.ctrlKey then "ctrl+" else "");
      if e.altKey {
        shortcutKey := shortcutKey + "alt+";
      }
      assert shortcutKey == (if e.ctrlKey then "ctrl+" else "") + (if e.altKey then "alt+" else "");
      if e.shiftKey {
        shortcutKey := shortcutKey + "shift+";
      }
      assert shortcutKey == (if e.ctrlKey then "ctrl+" else "") + (if e.altKey then "alt+" else "")
        + (if e.shiftKey then "shift+" else "");
      shortcutKey := shortcutKey + key;
      assert shortcutKey == ComboKey(e);
      var shortcut := Get(entries, shortcutKey);
      fired := if shortcut.Some? then Some(shortcut.value.callback) else None;
    }
  }
}
