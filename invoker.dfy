/**
 * `CommandInvoker<TReceiver, TCommandId>`: the registry that maps each
 * command id to its command, dispatches by id, lists its commands sorted by
 * id, and tells callers which ids are valid options.
 */
module Invoker {
  import opened Wrappers
  import opened Commands
  import opened InvokerValidation
  import opened EntrySort

  /** `Execute` with a null id throws (`Dictionary.ContainsKey(null)` raises `ArgumentNullException`). */
  datatype ExecuteError = NullCommandIdArgument

  /** The effect of running `target` (if any) on a receiver: its tag, or nothing. */
  function Effect(target: Option<Command>): seq<nat>
  {
    match target
    case None => []
    case Some(c) => [c.tag]
  }

  /** `s` lists every entry of `m` exactly once, strictly ascending by id. */
  ghost predicate SortedListing(m: map<Id, Command>, s: seq<Entry>)
  {
    && |s| == |m|
    && (forall e :: e in s <==> e.0 in m && m[e.0] == e.1)
    && StrictlySortedByKey(s)
  }

  class CommandInvoker {
    /** `_commands`: each command under its id; never changed after construction. */
    const commands: map<Id, Command>
    /**
     * `InvalidCommandId`: the id of the command run when `Execute` finds no
     * match, or `None` for no such command. In the source it is a virtual
     * property whose default is `default(TCommandId)`, which is null for a
     * reference id type and the zero value (so NOT null) for a value id type.
     */
    const invalidCommandId: Option<Id>

    /** What construction establishes: each command sits under its own id, and the invalid id has a command. */
    ghost predicate Valid()
    {
      && (forall k :: k in commands ==> commands[k].id == Some(k))
      && (invalidCommandId.Some? ==> invalidCommandId.value in commands)
    }

    /** The constructor's final step, reached only once the inputs have passed `Validate`. */
    constructor (cs: seq<Command>, invalidCommandId: Option<Id>)
      requires ValidInput(Some(cs), true, invalidCommandId)
      ensures this.commands == BuildMap(cs) && this.invalidCommandId == invalidCommandId
      ensures Valid()
    {
      this.commands := BuildMap(cs);
      this.invalidCommandId := invalidCommandId;
      new;
      BuiltMapIsValid(cs, invalidCommandId);
    }

    /**
     * The source's constructor: it throws on the first failed check and
     * otherwise yields an invoker holding the dictionary of the commands.
     * `commands` and the logger may be null; the logger is represented only
     * by whether it is present.
     */
    static method Create(commands: Option<seq<Command>>, hasLogger: bool, invalidCommandId: Option<Id>)
      returns (r: Result<CommandInvoker, ConstructionError>)
      ensures r.Failure? <==> !ValidInput(commands, hasLogger, invalidCommandId)
      ensures r.Failure? ==> Validate(commands, hasLogger, invalidCommandId) == Fail(r.error)
      ensures r.Success? ==>
        && fresh(r.value) && r.value.Valid()
        && r.value.commands == BuildMap(commands.value)
        && r.value.invalidCommandId == invalidCommandId
    {
      var check := Validate(commands, hasLogger, invalidCommandId);
      if check.Fail? {
        return Failure(check.error);
      }
      var invoker := new CommandInvoker(commands.value, invalidCommandId);
      return Success(invoker);
    }

    /**
     * The command `Execute` runs for a non-null `commandId`: the one under that
     * id; failing that, none when there is no invalid id, and otherwise the
     * invalid id's command.
     */
    function Target(commandId: Id): (target: Option<Command>)
      requires Valid()
      ensures target.Some? ==> target.value in commands.Values
      ensures target.Some? ==>
        target.value.id == Some(commandId) || (commandId !in commands && target.value.id == invalidCommandId)
      ensures target.None? <==> commandId !in commands && invalidCommandId.None?
      ensures commandId in commands ==> target == Some(commands[commandId])
      ensures commandId !in commands && invalidCommandId.Some? ==>
        target == Some(commands[invalidCommandId.value])
    {
      if commandId in commands then Some(commands[commandId])
      else if invalidCommandId.None? then None
      else
        assert forall k :: k in commands ==> commands[k].id == Some(k);
        Some(commands[invalidCommandId.value])
    }

    /**
     * Runs at most one command on `receiver`: the `Target` of `commandId`.
     * A null id throws before anything runs.
     */
    method Execute(receiver: Receiver, commandId: Option<Id>) returns (r: Outcome<ExecuteError>)
      requires Valid()
      modifies receiver
      ensures r.Fail? <==> commandId.None?
      ensures commandId.None? ==> receiver.trace == old(receiver.trace)
      ensures commandId.Some? ==> receiver.trace == old(receiver.trace) + Effect(Target(commandId.value))
    {
      if commandId.None? {
        return Fail(NullCommandIdArgument);
      }
      var id := commandId.value;
      if id in commands {
        ExecuteCommand(commands[id], receiver);
      } else if invalidCommandId.None? {
        // no command found and no fallback: nothing runs
      } else {
        ExecuteCommand(commands[invalidCommandId.value], receiver);
      }
      return Pass;
    }

    /** Copies the dictionary's entries into a fresh array, in no particular order. */
    method CopyEntries() returns (entries: array<Entry>)
      ensures fresh(entries)
      ensures entries.Length == |commands|
      ensures forall e :: e in entries[..] <==> e.0 in commands && commands[e.0] == e.1
      ensures DistinctKeys(entries[..])
    {
      entries := new Entry[|commands|];
      var remaining := commands.Keys;
      var i := 0;
      while remaining != {}
        invariant remaining <= commands.Keys
        invariant i + |remaining| == entries.Length
        invariant forall j :: 0 <= j < i ==>
          entries[j].0 in commands && entries[j].0 !in remaining && commands[entries[j].0] == entries[j].1
        invariant forall k :: k in commands && k !in remaining ==> (k, commands[k]) in entries[..i]
        invariant DistinctKeys(entries[..i])
      {
        // the next key the dictionary's enumeration yields, in no specified order
        NonEmptyHasKey(remaining);
        var k :| k in remaining;
        entries[i] := (k, commands[k]);
        assert entries[..i + 1] == entries[..i] + [(k, commands[k])];
        remaining := remaining - {k};
        i := i + 1;
      }
      assert entries[..] == entries[..i];
      forall e: Entry | e.0 in commands && commands[e.0] == e.1
        ensures e in entries[..]
      {
        var k := e.0;
        assert k in commands && k !in remaining;
        assert (k, commands[k]) in entries[..i];
        assert e == (k, commands[k]);
      }
    }

    /** The entries of the dictionary, each once, sorted by id. */
    method GetCommandIds() returns (entries: array<Entry>)
      ensures fresh(entries)
      ensures SortedListing(commands, entries[..])
    {
      entries := CopyEntries();
      ghost var copied := entries[..];
      SortByKey(entries);
      forall e: Entry ensures e in entries[..] <==> e in copied {
        assert e in entries[..] <==> e in multiset(entries[..]);
        assert e in copied <==> e in multiset(copied);
      }
      PermutationKeepsDistinctKeys(copied, entries[..]);
    }

    /**
     * Whether `commandId` is a selectable option: never null, never the
     * invalid id, and otherwise exactly the ids with a command.
     */
    function IsValidOption(commandId: Option<Id>): (valid: bool)
      ensures commandId.None? ==> !valid
      ensures commandId.Some? && commandId == invalidCommandId ==> !valid
      ensures valid <==> commandId.Some? && commandId != invalidCommandId && commandId.value in commands
    {
      if commandId.None? then false
      else if invalidCommandId.Some? && commandId == invalidCommandId then false
      else commandId.value in commands
    }
  }

  /** Helper for picking a key in `CopyEntries`: a non-empty set has an element. */
  lemma NonEmptyHasKey(keys: set<Id>)
    ensures keys == {} || exists k :: k in keys
  {
    if forall k :: k !in keys {
      assert keys == {};
    }
  }

  /** The dictionary built from valid inputs satisfies the invoker's invariant. */
  lemma BuiltMapIsValid(cs: seq<Command>, invalidCommandId: Option<Id>)
    requires ValidInput(Some(cs), true, invalidCommandId)
    ensures var m := BuildMap(cs);
      && (forall k :: k in m ==> m[k].id == Some(k))
      && (invalidCommandId.Some? ==> invalidCommandId.value in m)
  {
  }

  // ----- The invoker's behaviour stated in terms of the commands it was built from -----

  /**
   * `Execute(receiver, id)` runs the input command carrying `id` if there is
   * one; otherwise nothing when there is no invalid id, and otherwise the
   * input command carrying the invalid id.
   */
  lemma ExecuteRunsInputCommand(cs: seq<Command>, invoker: CommandInvoker, commandId: Id)
    requires ValidInput(Some(cs), true, invoker.invalidCommandId)
    requires invoker.commands == BuildMap(cs)
    ensures invoker.Valid()
    ensures forall i :: 0 <= i < |cs| && cs[i].id == Some(commandId) ==> invoker.Target(commandId) == Some(cs[i])
    ensures !CarriesId(cs, commandId) && invoker.invalidCommandId.None? ==> invoker.Target(commandId) == None
    ensures !CarriesId(cs, commandId) ==>
      forall i :: 0 <= i < |cs| && cs[i].id == invoker.invalidCommandId ==> invoker.Target(commandId) == Some(cs[i])
  {
  }

  /** The valid options are exactly the non-null input ids other than the invalid id. */
  lemma ValidOptionsAreInputIds(cs: seq<Command>, invoker: CommandInvoker, commandId: Option<Id>)
    requires ValidInput(Some(cs), true, invoker.invalidCommandId)
    requires invoker.commands == BuildMap(cs)
    ensures invoker.IsValidOption(commandId) <==>
      commandId.Some? && commandId != invoker.invalidCommandId && CarriesId(cs, commandId.value)
  {
  }

  /** `GetCommandIds` lists each input command once, under its own id. */
  lemma ListingHoldsInputCommands(cs: seq<Command>, s: seq<Entry>)
    requires NoNullIds(cs) && DistinctIds(cs)
    requires SortedListing(BuildMap(cs), s)
    ensures |s| == |cs|
    ensures forall i :: 0 <= i < |cs| ==> (cs[i].id.value, cs[i]) in s
    ensures forall e :: e in s ==> e.1 in cs && e.1.id == Some(e.0)
  {
  }

  /**
   * Any two results of `GetCommandIds` on the same invoker are equal: the
   * listing does not depend on the dictionary's internal order, and repeated
   * calls return the same sequence.
   */
  lemma ListingIsDeterministic(m: map<Id, Command>, s: seq<Entry>, t: seq<Entry>)
    requires SortedListing(m, s) && SortedListing(m, t)
    ensures s == t
  {
    StrictlySortedUnique(s, t);
  }
}
