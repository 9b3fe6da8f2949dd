/**
 The trash strategies selected by the `TRASH_STRATEGY` variable, and the
 exact, case-sensitive resolution of a name to a strategy.  `freedesktop`,
 `trash_cli` and `gio` fill the freedesktop.org trash under the data home;
 the three macOS strategies move the file into `~/.Trash`.
 */
module Strategies {
  import opened Bytes
  import opened Wrappers

  /** The six strategies `TRASH_STRATEGY` can name. */
  datatype Strategy =
    | Freedesktop
    | TrashCli
    | Gio
    | MacosTrashCommand
    | MacosApplescript
    | MacosMv

  /** The strategies that leave a `files/` entry and an `info/` record under the data home's `Trash`. */
  predicate FreedesktopLayout(s: Strategy)
  {
    s == Freedesktop || s == TrashCli || s == Gio
  }

  /** A `TRASH_STRATEGY` value that names no strategy. */
  datatype ResolutionError = UnknownStrategy(name: Bytes)

  /** The name the strategy is selected by. */
  function Name(s: Strategy): (name: Bytes)
  {
    match s
    case Freedesktop => "freedesktop"
    case TrashCli => "trash_cli"
    case Gio => "gio"
    case MacosTrashCommand => "macos_trash_command"
    case MacosApplescript => "macos_applescript"
    case MacosMv => "macos_mv"
  }

  /**
   The strategy whose name is exactly `name`; any other value, the empty
   string included, is an unknown strategy.
   */
  function Resolve(name: Bytes): (r: Result<Strategy, ResolutionError>)
    ensures r.Success? ==> Name(r.value) == name
    ensures r.Failure? ==> r.error == UnknownStrategy(name) && forall s: Strategy :: Name(s) != name
  {
    if name == "freedesktop" then Success(Freedesktop)
    else if name == "trash_cli" then Success(TrashCli)
    else if name == "gio" then Success(Gio)
    else if name == "macos_trash_command" then Success(MacosTrashCommand)
    else if name == "macos_applescript" then Success(MacosApplescript)
    else if name == "macos_mv" then Success(MacosMv)
    else Failure(UnknownStrategy(name))
  }

  /** Every strategy is selected by its own name, and by no other. */
  lemma ResolveName(s: Strategy, name: Bytes)
    ensures Resolve(Name(s)) == Success(s)
    ensures Resolve(name) == Success(s) <==> name == Name(s)
  {
  }

  /** The name used by the failing-strategy test is unknown. */
  lemma NonexistentStrategyIsUnknown()
    ensures Resolve("nonexistent_strategy") == Failure(UnknownStrategy("nonexistent_strategy"))
  {
  }
}
