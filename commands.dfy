/**
 * The shape of a command (`ICommand<TReceiver, TCommandId>`): an identifier
 * that may be null, and an effect on a receiver. The effect is foreign code;
 * here it is recorded as the command's tag appended to the receiver's trace.
 */
module Commands {
  import opened Wrappers

  /** Command identifiers: a totally ordered type with decidable equality. */
  type Id = int

  /** A command: its (nullable) `CommandId` and a tag naming its effect. */
  datatype Command = Command(id: Option<Id>, tag: nat)

  /** The receiver a command acts on; `trace` lists the effects applied to it, oldest first. */
  class Receiver {
    var trace: seq<nat>

    constructor ()
      ensures trace == []
    {
      trace := [];
    }
  }

  /** `ICommand.Execute(receiver)`: applies the command's effect to the receiver. */
  method ExecuteCommand(c: Command, receiver: Receiver)
    modifies receiver
    ensures receiver.trace == old(receiver.trace) + [c.tag]
  {
    receiver.trace := receiver.trace + [c.tag];
  }

  /** The identifiers of `cs`, in order. */
  function IdsOf(cs: seq<Command>): seq<Option<Id>>
  {
    seq(|cs|, i requires 0 <= i < |cs| => cs[i].id)
  }
}
