/**
 * `CommandPaletteProvider`: the registered commands, kept in registration
 * order with at most one command per id, and whether the palette is open.
 * A command's action is named by a number.
 */
module Commands {
  import opened Wrappers
  import opened Seqs

  /** The object handed to `registerCommand`, without an `id` key of its own. */
  datatype CommandSpec = CommandSpec(name: string, description: Option<string>, keywords: Option<seq<string>>, action: Option<nat>)

  /** A registered command: `{id, ...command}`. */
  datatype Command = Command(id: string, name: string, description: Option<string>, keywords: Option<seq<string>>, action: Option<nat>)

  function WithId(id: string, spec: CommandSpec): Command {
    Command(id, spec.name, spec.description, spec.keywords, spec.action)
  }

  predicate DifferentIds(x: Command, y: Command) {
    x.id != y.id
  }

  predicate IdsDistinct(commands: seq<Command>) {
    Pairwise(commands, DifferentIds)
  }

  /** `commands.filter(cmd => cmd.id !== id)`. */
  function WithoutId(commands: seq<Command>, id: string): (r: seq<Command>)
    ensures Subsequence(r, commands)
    ensures forall c :: c in r <==> c in commands && c.id != id
  {
    Filter(commands, (c: Command) => c.id != id)
  }

  /** `[...commands.filter(cmd => cmd.id !== id), {id, ...spec}]`. */
  function Registered(commands: seq<Command>, id: string, spec: CommandSpec): (r: seq<Command>)
    ensures |r| > 0 && r[|r| - 1] == WithId(id, spec)
    ensures forall c :: c in r <==> c == WithId(id, spec) || (c in commands && c.id != id)
  {
    WithoutId(commands, id) + [WithId(id, spec)]
  }

  /** `commands.find(cmd => cmd.id === id)`. */
  function FindById(commands: seq<Command>, id: string): (r: Option<Command>)
    ensures r.Some? <==> exists i :: 0 <= i < |commands| && commands[i].id == id
    ensures r.Some? ==> r.value in commands && r.value.id == id
  {
    if commands == [] then None
    else if commands[0].id == id then Some(commands[0])
    else
      var r := FindById(commands[1..], id);
      assert forall i :: 1 <= i < |commands| ==> commands[i] == commands[1..][i - 1];
      r
  }

  /** The action `executeCommand(id)` runs: that of the command with the id, when it has one. */
  function ActionOf(commands: seq<Command>, id: string): Option<nat> {
    match FindById(commands, id)
    case None => None
    case Some(c) => c.action
  }

  // ---------------------------------------------------------------------
  // Properties

  /** Registering keeps the ids distinct. */
  lemma RegisteredDistinct(commands: seq<Command>, id: string, spec: CommandSpec)
    requires IdsDistinct(commands)
    ensures IdsDistinct(Registered(commands, id, spec))
  {
    var kept := WithoutId(commands, id);
    SubsequencePairwise(kept, commands, DifferentIds);
    var r := Registered(commands, id, spec);
    forall i, j | 0 <= i < j < |r|
      ensures DifferentIds(r[i], r[j])
    {
      assert r[i] == kept[i];
      if j < |kept| {
        assert r[j] == kept[j];
      } else {
        assert r[i] in kept;
      }
    }
  }

  /** After registering, the id finds the new command, which comes last. */
  lemma RegisteredFinds(commands: seq<Command>, id: string, spec: CommandSpec)
    ensures FindById(Registered(commands, id, spec), id) == Some(WithId(id, spec))
    ensures ActionOf(Registered(commands, id, spec), id) == spec.action
  {
    var kept := WithoutId(commands, id);
    var r := Registered(commands, id, spec);
    FindLast(kept, WithId(id, spec));
  }

  lemma {:induction false} FindLast(kept: seq<Command>, c: Command)
    requires forall x :: x in kept ==> x.id != c.id
    ensures FindById(kept + [c], c.id) == Some(c)
    decreases |kept|
  {
    if kept != [] {
      assert (kept + [c])[1..] == kept[1..] + [c];
      FindLast(kept[1..], c);
    }
  }

  /** Re-registering an id replaces its command and moves it to the end; the count does not change. */
  lemma ReRegisterMoves(commands: seq<Command>, id: string, spec: CommandSpec)
    requires IdsDistinct(commands) && FindById(commands, id).Some?
    ensures |Registered(commands, id, spec)| == |commands|
  {
    var i :| 0 <= i < |commands| && commands[i].id == id;
    OneWithId(commands, i);
  }

  /** With distinct ids, removing an id present drops exactly one command. */
  lemma {:induction false} OneWithId(commands: seq<Command>, i: nat)
    requires IdsDistinct(commands) && i < |commands|
    ensures |WithoutId(commands, commands[i].id)| == |commands| - 1
  {
    var id := commands[i].id;
    var f := (c: Command) => c.id != id;
    if i == 0 {
      assert forall k :: 0 <= k < |commands[1..]| ==> f(commands[1..][k]) by {
        forall k | 0 <= k < |commands[1..]|
          ensures f(commands[1..][k])
        {
          assert DifferentIds(commands[0], commands[k + 1]);
        }
      }
      FilterAll(commands[1..], f);
    } else {
      assert IdsDistinct(commands[1..]) by {
        forall a, b | 0 <= a < b < |commands[1..]|
          ensures DifferentIds(commands[1..][a], commands[1..][b])
        {
          assert commands[1..][a] == commands[a + 1] && commands[1..][b] == commands[b + 1];
        }
      }
      assert DifferentIds(commands[0], commands[i]);
      assert commands[1..][i - 1] == commands[i];
      OneWithId(commands[1..], i - 1);
    }
  }

  /** Unregistering an id that was not registered before undoes its registration. */
  lemma UnregisterUndoesRegister(commands: seq<Command>, id: string, spec: CommandSpec)
    requires FindById(commands, id).None?
    ensures WithoutId(Registered(commands, id, spec), id) == commands
  {
    var f := (c: Command) => c.id != id;
    assert forall i :: 0 <= i < |commands| ==> f(commands[i]);
    FilterAll(commands, f);
    FilterSnocDropped(commands, WithId(id, spec), f);
  }

  // ---------------------------------------------------------------------
  // The provider

  class CommandRegistry {
    var isOpen: bool
    var commands: seq<Command>

    constructor()
      ensures !isOpen && commands == []
    {
      isOpen := false;
      commands := [];
    }

    /** `registerCommand(id, command)`. */
    method Register(id: string, spec: CommandSpec)
      modifies this
      ensures commands == Registered(old(commands), id, spec) && isOpen == old(isOpen)
    {
      commands := WithoutId(commands, id) + [WithId(id, spec)];
    }

    /** `unregisterCommand(id)`. */
    method Unregister(id: string)
      modifies this
      ensures commands == WithoutId(old(commands), id) && isOpen == old(isOpen)
    {
      commands := WithoutId(commands, id);
    }

    /** `executeCommand(id)`: runs the action, if the command has one, and then closes the palette. */
    method Execute(id: string) returns (ran: Option<nat>)
      modifies this
      ensures ran == ActionOf(old(commands), id)
      ensures commands == old(commands)
      ensures isOpen == if ran.Some? then false else old(isOpen)
    {
      var command := FindById(commands, id);
      if command.Some? && command.value.action.Some? {
        ran := command.value.action;
        isOpen := false;
      } else {
        ran := None;
      }
    }

    /** `togglePalette()`. */
    method Toggle()
      modifies this
      ensures isOpen == !old(isOpen) && commands == old(commands)
    {
      isOpen := !isOpen;
    }

    /** `setIsOpen(open)`. */
    method SetIsOpen(open: bool)
      modifies this
      ensures isOpen == open && commands == old(commands)
    {
      isOpen := open;
    }
  }
}
