# CommandInvoker: a verified model of a command registry and dispatcher

This project models `CommandInvoker<TReceiver, TCommandId>` from the
Akeraiotitasoft.Command library. The invoker is built once from a collection of
commands. Each command has a `CommandId` and an `Execute(receiver)` effect. The
invoker validates the collection and keeps a dictionary from id to command.
After that it answers three requests:

- `Execute(receiver, id)` runs the matching command. When there is no match it
  runs the "invalid command" fallback, or nothing if no fallback is configured.
- `GetCommandIds()` lists all (id, command) entries, sorted by id.
- `IsValidOption(id)` says whether an id is a selectable option.

Modelling choices:

- Ids are `int`, which is totally ordered and has decidable equality. A nullable id is `Option<int>`, and `None` plays the part of `null`.
- A command is a value `Command(id, tag)`. Running a command appends its `tag` to the receiver's `trace`, which stands in for the command's real effect.
- The virtual property `InvalidCommandId` is a constructor parameter `invalidCommandId: Option<Id>`, kept in a `const` field. It is read once, so the model assumes that the property returns the same value on every read. In the source its default is `default(TCommandId)`. That default is null for reference-type ids. For value-type ids such as `int` it is the zero value, which is not null. So with the default, an `int`-keyed invoker requires a command with id 0 (see `MissingDefaultInvalidCommand` in `invoker_scenarios.dfy`).
- The constructor throws, so it is modelled by the static method `CommandInvoker.Create`, which returns a `Result`. Its checks are the pure function `Validate`, which runs them in the source's order. The anonymous constructor is the final step, which builds the dictionary.
- The logger matters only through the null check on it. It is represented by the flag `hasLogger`.
- `GetCommandIds` copies the dictionary into a fresh array and then sorts that array in place by key, as the source does. `Array.Sort` is modelled by an insertion sort proved sorted and a permutation. Ids are distinct, so the sorted listing is unique; any correct sort gives the same result.

Files:

- `wrappers.dfy` holds `Option`, `Result` and `Outcome`.
- `commands.dfy` holds the command shape, the receiver and the command's effect.
- `invoker_validation.dfy` holds the constructor's checks and the dictionary build.
- `entry_sort.dfy` holds the sort by id.
- `invoker.dfy` holds the invoker class and the lemmas that relate it to its input commands.
- `invoker_scenarios.dfy` holds client methods for four example situations.

## Model

| member | source | states |
|---|---|---|
| `InvokerValidation.Validate` | src/Akeraiotitasoft.Command/CommandInvoker.cs:23-61 | Passes exactly on valid input: a non-null collection, a non-null logger, distinct ids, no null id, and the invalid id (if configured) carried by some command. Otherwise it reports the first failed check in source order: null collection, then null logger, then duplicates, then a null id, then the missing invalid command. A duplicate report names exactly the repeated ids, at least one, in order of first occurrence. |
| `InvokerValidation.DuplicateIds` | src/Akeraiotitasoft.Command/CommandInvoker.cs:30-34 | The `group by ... where Count() > 1` query returns exactly the ids that occur at two positions, each once, in order of first occurrence. A null id counts as an id. |
| `InvokerValidation.DuplicatesFromSpec` | src/Akeraiotitasoft.Command/CommandInvoker.cs:30-34 | The groups opened at position k or later are the repeated ids whose first occurrence is at or after k, listed by increasing first occurrence. |
| `InvokerValidation.DuplicatesIffNotDistinct` | src/Akeraiotitasoft.Command/CommandInvoker.cs:30-39 | The duplicate check throws exactly when two commands share an id. |
| `InvokerValidation.NullIdsReportedAsDuplicate` | src/Akeraiotitasoft.Command/CommandInvoker.cs:29-51 | Two commands with null ids make construction fail with a duplicate report that names null, not with the null-id error, because the duplicate search runs first. |
| `InvokerValidation.BuildMap` | src/Akeraiotitasoft.Command/CommandInvoker.cs:66 | The dictionary's keys are exactly the input ids. It has one entry per command. Each command sits under its own id. |
| `InvokerValidation.FirstIndex` | src/Akeraiotitasoft.Command/CommandInvoker.cs:31-34 | Gives the position of an id's first occurrence. This is the order in which `group by` yields its groups. |
| `Invoker.BuiltMapIsValid` | src/Akeraiotitasoft.Command/CommandInvoker.cs:53-66 | After validation, every dictionary entry's command carries its key, and the invalid id (if configured) is a key. So the fallback lookup at line 96 cannot fail, provided `InvalidCommandId` returns the same value on every read (see "## Left out"). |
| `Invoker.CommandInvoker.constructor` | src/Akeraiotitasoft.Command/CommandInvoker.cs:63-68 | On validated input, the dictionary is `BuildMap` of the commands, the invalid id is stored, and the invoker invariant holds. |
| `Invoker.CommandInvoker.Create` | src/Akeraiotitasoft.Command/CommandInvoker.cs:21-74 | Construction fails exactly on invalid input, with the error `Validate` gives. On success it yields a fresh, valid invoker whose dictionary is built from the input. |
| `Invoker.CommandInvoker.Target` | src/Akeraiotitasoft.Command/CommandInvoker.cs:81-97 | The command `Execute` runs. For an id that is a key, it is that key's command. For an absent id, it is the invalid id's command when one is configured and none otherwise. It always carries the requested id, or (only when that id is absent) the invalid id. |
| `Invoker.CommandInvoker.Execute` | src/Akeraiotitasoft.Command/CommandInvoker.cs:76-105 | A null id fails and runs nothing. Otherwise the receiver's trace gains exactly the target command's effect, or nothing, so at most one command runs. |
| `Invoker.ExecuteRunsInputCommand` | src/Akeraiotitasoft.Command/CommandInvoker.cs:81-97 | In terms of the input commands: an id carried by a command runs that command. An id carried by none runs nothing when no invalid id is configured, and otherwise runs the command that carries the invalid id. |
| `Invoker.CommandInvoker.CopyEntries` | src/Akeraiotitasoft.Command/CommandInvoker.cs:115-118 | Copies into a fresh array of the dictionary's size holding exactly its entries, with no key twice. |
| `EntrySort.SortByKey` | src/Akeraiotitasoft.Command/CommandInvoker.cs:119 | Sorts in place, ascending by id. The result is a permutation of the input. |
| `EntrySort.PermutationKeepsDistinctKeys` | src/Akeraiotitasoft.Command/CommandInvoker.cs:115-119 | Sorting entries with distinct keys leaves no two entries with the same key. |
| `Invoker.CommandInvoker.GetCommandIds` | src/Akeraiotitasoft.Command/CommandInvoker.cs:111-120 | Returns a fresh array that lists every dictionary entry exactly once, strictly ascending by id. The invoker is not changed. |
| `EntrySort.StrictlySortedUnique` | src/Akeraiotitasoft.Command/CommandInvoker.cs:119 | Two strictly id-sorted sequences that hold the same entries are equal. |
| `Invoker.ListingIsDeterministic` | src/Akeraiotitasoft.Command/CommandInvoker.cs:111-120 | Any two results of `GetCommandIds` on the same dictionary are equal. The listing does not depend on the dictionary's internal order, and repeated calls agree. |
| `Invoker.ListingHoldsInputCommands` | src/Akeraiotitasoft.Command/CommandInvoker.cs:111-120 | The listing has one entry per input command, holds every input command under its id, and holds nothing else. |
| `Invoker.CommandInvoker.IsValidOption` | src/Akeraiotitasoft.Command/CommandInvoker.cs:134-149 | False for a null id and for the invalid id. Otherwise true exactly for the dictionary's keys. It has no effect. |
| `Invoker.ValidOptionsAreInputIds` | src/Akeraiotitasoft.Command/CommandInvoker.cs:134-149 | The valid options are exactly the input ids other than the invalid id. |
| `Commands.ExecuteCommand` | src/Akeraiotitasoft.Command.Abstractions/ICommand.cs:9 | Running a command appends its tag to the receiver's trace and does nothing else. |

## Left out

- `InvalidCommandId`: the model assumes the virtual property returns the same value on every read. The source reads it again at each use (lines 53, 56, 89, 96, 140 and 142). An override whose value changes between reads is not modelled. One example is an override that returns a field set in a derived constructor: it is still null while the base constructor validates, so the check at line 53 is skipped, and a later miss in `Execute` then fails at line 96 with a `KeyNotFoundException`.
- Logging through `ILogger` (informational and error messages) is left out. It is a side channel with no effect on control flow. The logger appears only as the presence flag that the constructor's null check reads.
- The catch-log-rethrow wrappers in the constructor, `Execute` and `GetCommandIds` are left out. Every failure they rethrow is modelled as an error result (`ConstructionError`, `ExecuteError`), or cannot happen in the model.
- Faults in caller-supplied `Equals`, `GetHashCode` or `Comparer<T>.Default` are left out. Ids are `int`, so the order is lawful and total.
- A null element inside the command collection is left out. In the source it raises a `NullReferenceException` during the duplicate search; the model's commands are values.
- An exception thrown by a command's own `Execute` is left out. Command effects are modelled only as the tag appended to the receiver's trace.
- The text of the exception messages is left out, including the comma-joined list of duplicated ids. The model keeps only the list of ids.
- Re-enumerating a non-stable `IEnumerable` is left out. The input is an immutable sequence.
- Concurrent calls on one invoker are left out. The model is sequential.
- `Array.Sort` (introsort) is replaced by an insertion sort with the same contract. The keys are distinct, so the sorted result is the same.
- `ICommandInvoker.cs` is an interface with no logic. The invoker's class gives its operations.
