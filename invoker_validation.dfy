/**
 * The checks the `CommandInvoker` constructor runs on its inputs before it
 * builds its dictionary, and the dictionary it then builds.
 */
module InvokerValidation {
  import opened Wrappers
  import opened Commands

  /** Why construction throws; every case is an `ArgumentNullException` or `ArgumentException`. */
  datatype ConstructionError =
    | NullCommands                          // the command collection is null
    | NullLogger                            // the logger is null
    | DuplicatedIds(ids: seq<Option<Id>>)   // these ids occur more than once
    | NullCommandId                         // some command's id is null
    | MissingInvalidCommand(invalidId: Id)  // no command carries the configured invalid id

  // ----- What a valid input is, stated independently of the checks -----

  /** `x` occurs at two different positions of `ids`. */
  ghost predicate Repeated(ids: seq<Option<Id>>, x: Option<Id>)
  {
    exists i, j :: 0 <= i < j < |ids| && ids[i] == x && ids[j] == x
  }

  /** No two commands share an id (null counts as an id here). */
  ghost predicate DistinctIds(cs: seq<Command>)
  {
    forall i, j :: 0 <= i < j < |cs| ==> cs[i].id != cs[j].id
  }

  /** Every command has a non-null id. */
  ghost predicate NoNullIds(cs: seq<Command>)
  {
    forall i :: 0 <= i < |cs| ==> cs[i].id.Some?
  }

  /** Some command carries exactly `id`. */
  ghost predicate CarriesId(cs: seq<Command>, id: Id)
  {
    exists i :: 0 <= i < |cs| && cs[i].id == Some(id)
  }

  /** The inputs the constructor accepts. */
  ghost predicate ValidInput(commands: Option<seq<Command>>, hasLogger: bool, invalidCommandId: Option<Id>)
  {
    && commands.Some?
    && hasLogger
    && DistinctIds(commands.value)
    && NoNullIds(commands.value)
    && (invalidCommandId.Some? ==> CarriesId(commands.value, invalidCommandId.value))
  }

  // ----- The duplicate search: `group by id where Count() > 1 select Key` -----

  /** The position of the first occurrence of `x` in `s`. */
  function FirstIndex(s: seq<Option<Id>>, x: Option<Id>): (i: nat)
    requires x in s
    ensures i < |s| && s[i] == x && x !in s[..i]
  {
    if s[0] == x then 0 else 1 + FirstIndex(s[1..], x)
  }

  /**
   * The keys of the groups that LINQ's `group by` opens at position `k` or
   * later (an id opens its group at its first occurrence in all of `ids`),
   * in that order, keeping those whose group has more than one member in all
   * of `ids`.
   */
  function DuplicatesFrom(ids: seq<Option<Id>>, k: nat): seq<Option<Id>>
    requires k <= |ids|
    decreases |ids| - k
  {
    if k == |ids| then []
    else
      var opensRepeatedGroup := ids[k] !in ids[..k] && ids[k] in ids[k + 1..];
      (if opensRepeatedGroup then [ids[k]] else []) + DuplicatesFrom(ids, k + 1)
  }

  /** The ids that occur more than once, each once, in order of first occurrence. */
  function DuplicateIds(ids: seq<Option<Id>>): (dups: seq<Option<Id>>)
    ensures forall x :: x in dups <==> Repeated(ids, x)
    ensures forall x :: x in dups ==> x in ids
    ensures forall i, j :: 0 <= i < j < |dups| ==> FirstIndex(ids, dups[i]) < FirstIndex(ids, dups[j])
  {
    DuplicatesFromSpec(ids, 0);
    DuplicatesFrom(ids, 0)
  }

  lemma {:induction false} DuplicatesFromSpec(ids: seq<Option<Id>>, k: nat)
    requires k <= |ids|
    ensures forall x :: x in DuplicatesFrom(ids, k) ==> x in ids && FirstIndex(ids, x) >= k
    ensures forall x :: x in DuplicatesFrom(ids, k) <==> x in ids && FirstIndex(ids, x) >= k && Repeated(ids, x)
    ensures forall i, j :: 0 <= i < j < |DuplicatesFrom(ids, k)| ==>
      FirstIndex(ids, DuplicatesFrom(ids, k)[i]) < FirstIndex(ids, DuplicatesFrom(ids, k)[j])
    decreases |ids| - k
  {
    if k < |ids| {
      DuplicatesFromSpec(ids, k + 1);
      var x := ids[k];
      var rest := DuplicatesFrom(ids, k + 1);
      var head := if x !in ids[..k] && x in ids[k + 1..] then [x] else [];
      assert DuplicatesFrom(ids, k) == head + rest;
      forall y | y in ids
        ensures y in head + rest <==> FirstIndex(ids, y) >= k && Repeated(ids, y)
      {
        if y == x {
          FirstOccurrenceRepeated(ids, k);
        } else {
          assert FirstIndex(ids, y) != k;
        }
      }
      if head != [] {
        InPrefix(ids, k, x);
        assert FirstIndex(ids, x) == k;
      }
    }
  }

  /** Position `k` holds `ids[k]`'s first occurrence and a later one follows, exactly when it opens a repeated group. */
  lemma FirstOccurrenceRepeated(ids: seq<Option<Id>>, k: nat)
    requires k < |ids|
    ensures FirstIndex(ids, ids[k]) >= k && Repeated(ids, ids[k]) <==> ids[k] !in ids[..k] && ids[k] in ids[k + 1..]
  {
  }

  /** Membership in a prefix, by position. */
  lemma InPrefix(s: seq<Option<Id>>, k: nat, x: Option<Id>)
    requires k <= |s|
    ensures x in s[..k] <==> exists i :: 0 <= i < k && s[i] == x
  {
  }

  // ----- The constructor's checks, in the order it runs them -----

  /**
   * The validation at the start of the constructor: null arguments, then
   * duplicated ids, then null ids, then the invalid-command id's command.
   * `Pass` means construction goes on to build the dictionary.
   */
  function Validate(commands: Option<seq<Command>>, hasLogger: bool, invalidCommandId: Option<Id>)
    : (r: Outcome<ConstructionError>)
    ensures r.Pass? <==> ValidInput(commands, hasLogger, invalidCommandId)
    ensures r == Fail(NullCommands) <==> commands.None?
    ensures r == Fail(NullLogger) <==> commands.Some? && !hasLogger
    ensures r.Fail? && r.error.DuplicatedIds? <==>
      commands.Some? && hasLogger && !DistinctIds(commands.value)
    ensures r.Fail? && r.error.DuplicatedIds? ==>
      && |r.error.ids| > 0
      && (forall x :: x in r.error.ids <==> Repeated(IdsOf(commands.value), x))
      && (forall x :: x in r.error.ids ==> x in IdsOf(commands.value))
    ensures r.Fail? && r.error.DuplicatedIds? ==>
      forall i, j :: 0 <= i < j < |r.error.ids| ==>
        FirstIndex(IdsOf(commands.value), r.error.ids[i]) < FirstIndex(IdsOf(commands.value), r.error.ids[j])
    ensures r == Fail(NullCommandId) <==>
      commands.Some? && hasLogger && DistinctIds(commands.value) && !NoNullIds(commands.value)
    ensures r.Fail? && r.error.MissingInvalidCommand? <==>
      && commands.Some? && hasLogger && DistinctIds(commands.value) && NoNullIds(commands.value)
      && invalidCommandId.Some? && !CarriesId(commands.value, invalidCommandId.value)
    ensures r.Fail? && r.error.MissingInvalidCommand? ==> invalidCommandId == Some(r.error.invalidId)
  {
    if commands.None? then Fail(NullCommands)
    else if !hasLogger then Fail(NullLogger)
    else
      var cs := commands.value;
      var dups := DuplicateIds(IdsOf(cs));
      DuplicatesIffNotDistinct(cs);
      if |dups| > 0 then Fail(DuplicatedIds(dups))
      else if exists i | 0 <= i < |cs| :: cs[i].id.None? then Fail(NullCommandId)
      else if invalidCommandId.Some? && !(exists i | 0 <= i < |cs| :: cs[i].id == invalidCommandId) then
        Fail(MissingInvalidCommand(invalidCommandId.value))
      else Pass
  }

  /** The duplicate search finds something exactly when two commands share an id. */
  lemma DuplicatesIffNotDistinct(cs: seq<Command>)
    ensures |DuplicateIds(IdsOf(cs))| > 0 <==> !DistinctIds(cs)
  {
    var ids := IdsOf(cs);
    var dups := DuplicateIds(ids);
    if !DistinctIds(cs) {
      var i, j :| 0 <= i < j < |cs| && cs[i].id == cs[j].id;
      assert ids[i] == cs[i].id && ids[j] == cs[j].id;
      assert Repeated(ids, ids[i]);
      assert ids[i] in dups;
    }
    if |dups| > 0 {
      assert Repeated(ids, dups[0]);
    }
  }

  /**
   * Two commands with null ids are reported as a duplicated id, not as a null
   * id, because the duplicate search runs before the null search.
   */
  lemma NullIdsReportedAsDuplicate(cs: seq<Command>, invalidCommandId: Option<Id>, i: nat, j: nat)
    requires i < j < |cs| && cs[i].id.None? && cs[j].id.None?
    ensures Validate(Some(cs), true, invalidCommandId).Fail?
    ensures Validate(Some(cs), true, invalidCommandId).error.DuplicatedIds?
    ensures None in Validate(Some(cs), true, invalidCommandId).error.ids
  {
    var ids := IdsOf(cs);
    assert ids[i] == None && ids[j] == None;
  }

  // ----- The dictionary built from the commands -----

  /**
   * `new Dictionary(commands.Select(c => (c.CommandId, c)))`: each command
   * under its id. Dictionary construction throws on a null or repeated key;
   * the checks above have excluded both by the time it runs.
   */
  function BuildMap(cs: seq<Command>): (m: map<Id, Command>)
    requires NoNullIds(cs) && DistinctIds(cs)
    ensures forall k :: k in m <==> CarriesId(cs, k)
    ensures |m| == |cs|
    ensures forall i :: 0 <= i < |cs| ==> cs[i].id.value in m && m[cs[i].id.value] == cs[i]
  {
    if cs == [] then map[]
    else
      var init, last := cs[..|cs| - 1], cs[|cs| - 1];
      assert forall i :: 0 <= i < |init| ==> init[i] == cs[i];
      var m := BuildMap(init);
      assert !CarriesId(init, last.id.value) by {
        assert forall i :: 0 <= i < |init| ==> init[i].id != last.id;
      }
      m[last.id.value := last]
  }
}
