/**
 * The `CommandPalette` dialog: the commands matching the search term, and
 * the highlighted index the keyboard moves over them. Enter runs the
 * highlighted command through the registry; Escape closes the palette.
 *
 * The dialog re-runs an effect that sets the index back to 0 whenever its
 * dependency `filteredCommands` changes. That dependency is an array the
 * component builds afresh on every render, so React sees it change on
 * every render: `RenderedIndexAsWritten` and `PaletteView.AfterRender`
 * model that, and `RenderedIndex` and `PaletteView.AfterRenderIntended`
 * the intended reset on a change of the filtered list's contents.
 */
module CommandPalette {
  import opened Wrappers
  import opened Seqs
  import Text
  import Selection
  import opened Commands

  /** The command's name, description or one of its keywords contains the term, ignoring case. */
  predicate Matches(c: Command, searchTerm: string) {
    var term := Text.Lower(searchTerm);
    Text.Contains(Text.Lower(c.name), term)
    || (c.description.Some? && Text.Contains(Text.Lower(c.description.value), term))
    || (c.keywords.Some? && exists k :: k in c.keywords.value && Text.Contains(Text.Lower(k), term))
  }

  /** `filteredCommands` (EnhancedDialogs.js lines 14-18). */
  function FilteredCommands(commands: seq<Command>, searchTerm: string): (r: seq<Command>)
    ensures |r| <= |commands|
    ensures Subsequence(r, commands)
    ensures forall c :: c in r <==> c in commands && Matches(c, searchTerm)
  {
    Filter(commands, (c: Command) => Matches(c, searchTerm))
  }

  /** An empty search keeps every command, in order. */
  lemma EmptySearchKeepsAll(commands: seq<Command>)
    ensures FilteredCommands(commands, "") == commands
  {
    forall i | 0 <= i < |commands|
      ensures Matches(commands[i], "")
    {
      Text.ContainsEmpty(Text.Lower(commands[i].name));
    }
    FilterAll(commands, (c: Command) => Matches(c, ""));
  }

  /** A command whose name contains the term, in any case, is offered. */
  lemma NameMatchOffered(commands: seq<Command>, c: Command, searchTerm: string)
    requires c in commands && Text.Contains(Text.Lower(c.name), Text.Lower(searchTerm))
    ensures c in FilteredCommands(commands, searchTerm)
  {
  }

  datatype Key = ArrowDown | ArrowUp | Enter | Escape | OtherKey

  /** The highlight after a key (lines 38-49); Enter and Escape leave it. */
  function KeyIndex(key: Key, index: int, count: int): int {
    match key
    case ArrowDown => Selection.Down(index, count)
    case ArrowUp => Selection.Up(index, count)
    case _ => index
  }

  /** The command Enter runs: the highlighted one, when the index is in range (lines 50-58). */
  function Chosen(filtered: seq<Command>, index: int): (r: Option<Command>)
    ensures r.Some? <==> 0 <= index < |filtered|
    ensures r.Some? ==> r.value == filtered[index] && r.value in filtered
  {
    if 0 <= index < |filtered| then Some(filtered[index]) else None
  }

  /**
   * The index after the re-render that follows a key: the effect of lines
   * 21-23 runs after every render, as its dependency is a new array each time.
   */
  function RenderedIndexAsWritten(key: Key, index: int, count: int): (r: int)
    ensures r == 0
  {
    0
  }

  /** The index after the re-render when the reset follows a change of the filtered list's contents. */
  function RenderedIndex(key: Key, index: int, before: seq<Command>, after: seq<Command>): (r: int)
    ensures before != after ==> r == 0
    ensures before == after ==> r == KeyIndex(key, index, |after|)
  {
    if before != after then 0 else KeyIndex(key, index, |after|)
  }

  /**
   * As written, ArrowDown is undone by the re-render: with two matching
   * commands, ArrowDown then Enter runs the first command, not the second.
   */
  lemma ArrowDownIsLost(filtered: seq<Command>)
    requires |filtered| == 2
    ensures Selection.Down(0, |filtered|) == 1
    ensures Chosen(filtered, RenderedIndexAsWritten(ArrowDown, 0, |filtered|)) == Some(filtered[0])
  {
  }

  /**
   * With the reset tied to the list's contents, ArrowDown then Enter runs
   * the next command, and `k` presses move `k` places round the list.
   */
  lemma ArrowDownMoves(filtered: seq<Command>, index: int, k: nat)
    requires 0 <= index < |filtered| && k <= |filtered|
    ensures Chosen(filtered, RenderedIndex(ArrowDown, index, filtered, filtered))
      == Some(filtered[if index + 1 < |filtered| then index + 1 else 0])
    ensures Selection.DownTimes(index, |filtered|, k) == if index + k < |filtered| then index + k else index + k - |filtered|
  {
    Selection.DownCycles(index, |filtered|, k);
  }

  // ---------------------------------------------------------------------
  // The dialog

  class PaletteView {
    /** The provider the dialog reads its commands and open state from. */
    const registry: CommandRegistry
    var searchTerm: string
    var selectedIndex: int

    function Filtered(): seq<Command>
      reads this, registry
    {
      FilteredCommands(registry.commands, searchTerm)
    }

    constructor(registry: CommandRegistry)
      ensures this.registry == registry && searchTerm == "" && selectedIndex == 0
    {
      this.registry := registry;
      searchTerm := "";
      selectedIndex := 0;
    }

    /** The input's `onChange`. */
    method SetSearchTerm(term: string)
      modifies this
      ensures searchTerm == term && selectedIndex == old(selectedIndex)
    {
      searchTerm := term;
    }

    /** A command row's `onMouseEnter`. */
    method Hover(index: int)
      modifies this
      ensures selectedIndex == index && searchTerm == old(searchTerm)
    {
      selectedIndex := index;
    }

    /**
     * The reset effect of lines 21-23 as written: its dependency is a new
     * array on every render, so it runs after every render and the index
     * goes back to 0.
     */
    method AfterRender()
      modifies this
      ensures selectedIndex == 0 && searchTerm == old(searchTerm)
    {
      selectedIndex := 0;
    }

    /**
     * The intended reset effect, run after a render with the filtered list
     * the previous render showed: the index goes back to 0 only when the
     * list differs.
     */
    method AfterRenderIntended(previous: seq<Command>)
      modifies this
      ensures selectedIndex == (if previous != Filtered() then 0 else old(selectedIndex))
      ensures searchTerm == old(searchTerm)
    {
      if previous != FilteredCommands(registry.commands, searchTerm) {
        selectedIndex := 0;
      }
    }

    /**
     * The `keydown` listener, active while the palette is open: the id of
     * the command Enter runs, which is also what it reports to analytics.
     */
    method HandleKey(key: Key) returns (executed: Option<string>)
      modifies this, registry
      ensures registry.commands == old(registry.commands) && searchTerm == old(searchTerm)
      ensures !old(registry.isOpen) ==> executed.None? && selectedIndex == old(selectedIndex) && registry.isOpen == old(registry.isOpen)
      ensures old(registry.isOpen) ==> selectedIndex == KeyIndex(key, old(selectedIndex), |Filtered()|)
      ensures old(registry.isOpen) && key == Enter ==>
        executed == (match Chosen(Filtered(), selectedIndex) case None => None case Some(c) => Some(c.id))
      ensures old(registry.isOpen) && key == Enter && executed.Some? ==>
        registry.isOpen == (ActionOf(registry.commands, executed.value).None? && old(registry.isOpen))
      ensures old(registry.isOpen) && key == Enter && executed.None? ==> registry.isOpen
      ensures old(registry.isOpen) && key == Escape ==> !registry.isOpen && executed.None?
      ensures old(registry.isOpen) && key in {ArrowDown, ArrowUp, OtherKey} ==> registry.isOpen && executed.None?
    {
      executed := None;
      if !registry.isOpen {
        return;
      }
      var filtered := FilteredCommands(registry.commands, searchTerm);
      match key {
        case ArrowDown =>
          selectedIndex := if selectedIndex < |filtered| - 1 then selectedIndex + 1 else 0;
        case ArrowUp =>
          selectedIndex := if selectedIndex > 0 then selectedIndex - 1 else |filtered| - 1;
        case Enter =>
          if 0 <= selectedIndex < |filtered| {
            var id := filtered[selectedIndex].id;
            var _ := registry.Execute(id);
            executed := Some(id);
          }
        case Escape =>
          registry.SetIsOpen(false);
        case OtherKey =>
      }
    }
  }
}
