/**
  The appointment repository the controller depends on, kept in memory.

  The stored appointments are a sequence in insertion order (the order
  `findAll()` lists them in); `save` gives each new row a fresh id, as the
  persistence layer does. A ghost trace records every call the
  controller makes on the repository, so that a controller method can say
  which calls it made and in what order.
 */
module Repository {
  import opened Entities

  /** One call on the repository. */
  datatype RepositoryCall =
    | FindAllCall
    | FindByIdCall(id: int)
    | SaveCall(appointment: Appointment)
    | DeleteByIdCall(id: int)
    | DeleteAllCall

  /** No two stored appointments share an id. */
  ghost predicate UniqueIds(rows: seq<Appointment>) {
    forall i, j :: 0 <= i < j < |rows| ==> rows[i].id != rows[j].id
  }

  /** `findById(id)`: the stored appointment with that id, if any. */
  function Lookup(rows: seq<Appointment>, id: int): (r: Option<Appointment>)
    ensures r.Some? ==> r.value in rows && r.value.id == id
    ensures r.None? <==> forall e :: e in rows ==> e.id != id
  {
    if rows == [] then None
    else if rows[0].id == id then Some(rows[0])
    else Lookup(rows[1..], id)
  }

  /** `deleteById(id)`: the stored appointments, that id removed, order kept. */
  function Without(rows: seq<Appointment>, id: int): (r: seq<Appointment>)
    ensures forall e :: e in r <==> e in rows && e.id != id
    ensures |r| <= |rows|
  {
    if rows == [] then []
    else if rows[0].id == id then Without(rows[1..], id)
    else [rows[0]] + Without(rows[1..], id)
  }

  /** Removing an id keeps the ids unique. */
  lemma {:induction false} WithoutKeepsUniqueIds(rows: seq<Appointment>, id: int)
    requires UniqueIds(rows)
    ensures UniqueIds(Without(rows, id))
  {
    if rows != [] {
      var tail := rows[1..];
      assert UniqueIds(tail) by {
        forall i, j | 0 <= i < j < |tail| ensures tail[i].id != tail[j].id {
          assert tail[i] == rows[i + 1] && tail[j] == rows[j + 1];
        }
      }
      WithoutKeepsUniqueIds(tail, id);
      TailKeepsUniqueIds(rows);
      if rows[0].id != id {
        var r := Without(rows, id);
        assert r == [rows[0]] + Without(tail, id);
        forall j | 0 < j < |r| ensures r[0].id != r[j].id {
          assert r[j] in Without(tail, id);
          assert r[j] in tail;
          var k :| 0 <= k < |tail| && tail[k] == r[j];
          assert rows[k + 1] == r[j];
        }
      }
    }
  }

  /** The tail of a row list with unique ids has unique ids. */
  lemma TailKeepsUniqueIds(rows: seq<Appointment>)
    requires rows != [] && UniqueIds(rows)
    ensures UniqueIds(rows[1..])
    ensures forall e :: e in rows[1..] ==> e.id != rows[0].id
  {
    var tail := rows[1..];
    forall i, j | 0 <= i < j < |tail| ensures tail[i].id != tail[j].id {
      assert tail[i] == rows[i + 1] && tail[j] == rows[j + 1];
    }
    forall e | e in tail ensures e.id != rows[0].id {
      var k :| 0 <= k < |tail| && tail[k] == e;
      assert rows[k + 1] == e;
    }
  }

  /** Deleting an id that is not stored changes nothing. */
  lemma {:induction false} WithoutAbsentId(rows: seq<Appointment>, id: int)
    requires Lookup(rows, id).None?
    ensures Without(rows, id) == rows
  {
    if rows != [] {
      WithoutAbsentId(rows[1..], id);
      assert rows == [rows[0]] + rows[1..];
    }
  }

  /**
    With unique ids, deleting a stored id takes away exactly the one
    appointment `findById` finds.
   */
  lemma {:induction false} WithoutRemovesExactlyOne(rows: seq<Appointment>, id: int)
    requires UniqueIds(rows) && Lookup(rows, id).Some?
    ensures multiset(Without(rows, id)) == multiset(rows) - multiset{Lookup(rows, id).value}
  {
    var tail := rows[1..];
    assert rows == [rows[0]] + tail;
    assert multiset(rows) == multiset{rows[0]} + multiset(tail);
    TailKeepsUniqueIds(rows);
    if rows[0].id == id {
      assert Lookup(tail, id).None?;
      WithoutAbsentId(tail, id);
      assert Without(rows, id) == tail;
    } else {
      var x := Lookup(tail, id).value;
      WithoutRemovesExactlyOne(tail, id);
      assert x != rows[0];
      calc {
        multiset(Without(rows, id));
        multiset([rows[0]] + Without(tail, id));
        multiset{rows[0]} + (multiset(tail) - multiset{x});
        (multiset{rows[0]} + multiset(tail)) - multiset{x};
      }
    }
  }

  /** How many `save` calls a trace holds. */
  function SaveCount(calls: seq<RepositoryCall>): (n: nat)
    ensures n <= |calls|
    ensures n == 0 <==> forall c :: c in calls ==> !c.SaveCall?
  {
    if calls == [] then 0
    else (if calls[0].SaveCall? then 1 else 0) + SaveCount(calls[1..])
  }

  lemma {:induction false} SaveCountAppend(a: seq<RepositoryCall>, b: seq<RepositoryCall>)
    ensures SaveCount(a + b) == SaveCount(a) + SaveCount(b)
  {
    if a == [] {
      assert a + b == b;
    } else {
      assert (a + b)[0] == a[0] && (a + b)[1..] == a[1..] + b;
      SaveCountAppend(a[1..], b);
    }
  }

  class AppointmentRepository {
    /** The stored appointments, in the order `findAll()` lists them. */
    var rows: seq<Appointment>
    /** The id the next `save` assigns. */
    var nextId: int
    /** Every call made on this repository so far. */
    ghost var calls: seq<RepositoryCall>

    /** Ids are unique and every stored id was assigned before `nextId`. */
    ghost predicate Valid()
      reads this`rows, this`nextId
    {
      UniqueIds(rows) && forall e :: e in rows ==> e.id < nextId
    }

    constructor ()
      ensures Valid() && rows == [] && calls == []
    {
      rows := [];
      nextId := 1;
      calls := [];
    }

    method FindAll() returns (all: seq<Appointment>)
      requires Valid()
      modifies this`calls
      ensures all == rows
      ensures calls == old(calls) + [FindAllCall]
    {
      all := rows;
      calls := calls + [FindAllCall];
    }

    method FindById(id: int) returns (r: Option<Appointment>)
      requires Valid()
      modifies this`calls
      ensures r == Lookup(rows, id)
      ensures calls == old(calls) + [FindByIdCall(id)]
    {
      r := Lookup(rows, id);
      calls := calls + [FindByIdCall(id)];
    }

    /** Stores `a` under a fresh id and returns the stored row. */
    method Save(a: Appointment) returns (saved: Appointment)
      requires Valid()
      modifies this
      ensures Valid()
      ensures saved == a.(id := old(nextId))
      ensures rows == old(rows) + [saved] && nextId == old(nextId) + 1
      ensures calls == old(calls) + [SaveCall(a)]
    {
      saved := a.(id := nextId);
      rows := rows + [saved];
      nextId := nextId + 1;
      calls := calls + [SaveCall(a)];
    }

    method DeleteById(id: int)
      requires Valid()
      modifies this`rows, this`calls
      ensures Valid()
      ensures rows == Without(old(rows), id)
      ensures calls == old(calls) + [DeleteByIdCall(id)]
    {
      WithoutKeepsUniqueIds(rows, id);
      rows := Without(rows, id);
      calls := calls + [DeleteByIdCall(id)];
    }

    method DeleteAll()
      requires Valid()
      modifies this`rows, this`calls
      ensures Valid()
      ensures rows == []
      ensures calls == old(calls) + [DeleteAllCall]
    {
      rows := [];
      calls := calls + [DeleteAllCall];
    }
  }
}
