/**
 * Callers of the invoker, showing what its contracts let a client conclude
 * in four example situations.
 */
module InvokerScenarios {
  import opened Wrappers
  import opened Commands
  import opened InvokerValidation
  import opened EntrySort
  import opened Invoker

  /** Ids 1, 2, 3 and no invalid id: sorted listing; 2 runs command 2 only; 99 runs nothing. */
  method MenuWithoutInvalidId()
  {
    var c1, c2, c3 := Command(Some(1), 10), Command(Some(2), 20), Command(Some(3), 30);
    var cs := [c3, c1, c2];
    var r := CommandInvoker.Create(Some(cs), true, None);
    assert r.Success?;
    var invoker := r.value;
    var m := invoker.commands;
    assert cs[0] == c3 && cs[1] == c1 && cs[2] == c2;
    assert m[1] == c1 && m[2] == c2 && m[3] == c3;
    forall k | k in m ensures k in {1, 2, 3} {
      assert CarriesId(cs, k);
    }

    var entries := invoker.GetCommandIds();
    var expected := [(1, c1), (2, c2), (3, c3)];
    assert SortedListing(m, expected);
    ListingIsDeterministic(m, entries[..], expected);
    assert entries[..] == expected;

    var receiver := new Receiver();
    var outcome := invoker.Execute(receiver, Some(2));
    assert receiver.trace == [20];
    outcome := invoker.Execute(receiver, Some(99));
    assert receiver.trace == [20];
  }

  /** Ids 1, 2 with invalid id 0 (the default for integer ids): construction fails. */
  method MissingDefaultInvalidCommand()
  {
    var cs := [Command(Some(1), 10), Command(Some(2), 20)];
    var r := CommandInvoker.Create(Some(cs), true, Some(0));
    assert !CarriesId(cs, 0);
    assert r == Failure(MissingInvalidCommand(0));
  }

  /** Ids 0 (the invalid id), 1, 2: 0 is not a valid option, 1 is; 99 runs command 0. */
  method MenuWithInvalidId()
  {
    var c0, c1, c2 := Command(Some(0), 0), Command(Some(1), 10), Command(Some(2), 20);
    var r := CommandInvoker.Create(Some([c0, c1, c2]), true, Some(0));
    assert r.Success?;
    var invoker := r.value;
    assert !invoker.IsValidOption(Some(0));
    assert invoker.IsValidOption(Some(1));
    assert !invoker.IsValidOption(None);

    var receiver := new Receiver();
    assert 99 !in invoker.commands;
    var outcome := invoker.Execute(receiver, Some(99));
    assert receiver.trace == [0];
  }

  /** Two commands with id 5: construction fails naming 5. */
  method DuplicatedFive()
  {
    var cs := [Command(Some(5), 1), Command(Some(5), 2)];
    var r := CommandInvoker.Create(Some(cs), true, None);
    assert IdsOf(cs)[0] == IdsOf(cs)[1] == Some(5);
    assert Repeated(IdsOf(cs), Some(5));
    assert r.Failure? && r.error.DuplicatedIds? && Some(5) in r.error.ids;
  }
}
