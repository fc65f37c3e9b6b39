/** The in-memory room directory (`RoomsAccess`): an ordered sequence of
    rooms, read by `Find` and `Get` and changed by `Create` and `Delete`.

    Every operation is one atomic step (the read/write lock serialises them).
    The identifier generator is abstract: `Create` receives the outcome of its
    one call to the generator. */
module DummyRooms {
  import opened Wrappers
  import opened Errors
  import opened Entity
  import opened Ports

  /** The error `Create` returns when the generator fails. */
  function GenerationError(cause: Error): Error
  {
    Wrapped("failed to generate id", cause)
  }

  /** `rooms[i]` is the first room carrying `id`. */
  ghost predicate FirstWithId(rooms: seq<Room>, id: ID, i: int)
  {
    0 <= i < |rooms| && rooms[i].id == id && forall j :: 0 <= j < i ==> rooms[j].id != id
  }

  /** Some room carries `id`. */
  ghost predicate HasId(rooms: seq<Room>, id: ID)
  {
    exists i :: 0 <= i < |rooms| && rooms[i].id == id
  }

  /** No two rooms share an identifier. */
  ghost predicate UniqueIds(rooms: seq<Room>)
  {
    forall i, j :: 0 <= i < j < |rooms| ==> rooms[i].id != rooms[j].id
  }

  /** `Find`: never fails and returns exactly the stored rooms, in insertion
      order. */
  function Find(rooms: seq<Room>, input: FindRoomsInput): (r: Result<FindRoomsOutput, Error>)
    ensures r.Success? && r.value.rooms == rooms
  {
    Success(FindRoomsOutput(rooms))
  }

  /** `Get`: a linear scan returning the first room whose identifier equals
      the requested one, or the not-found sentinel, unwrapped. */
  function Get(rooms: seq<Room>, input: GetRoomInput): (r: Result<GetRoomOutput, Error>)
    ensures r.Failure? <==> !HasId(rooms, input.id)
    ensures r.Failure? ==> r.error == Sentinel(NotFoundEntity)
    ensures r.Success? ==> exists i :: FirstWithId(rooms, input.id, i) && rooms[i] == r.value.room
  {
    if |rooms| == 0 then Failure(Sentinel(NotFoundEntity))
    else if rooms[0].id == input.id then
      assert FirstWithId(rooms, input.id, 0);
      Success(GetRoomOutput(rooms[0]))
    else
      var r := Get(rooms[1..], input);
      assert HasId(rooms, input.id) <==> HasId(rooms[1..], input.id) by {
        if HasId(rooms, input.id) {
          var i :| 0 <= i < |rooms| && rooms[i].id == input.id;
          assert rooms[1..][i - 1].id == input.id;
        }
        if HasId(rooms[1..], input.id) {
          var i :| 0 <= i < |rooms| - 1 && rooms[1..][i].id == input.id;
          assert rooms[i + 1].id == input.id;
        }
      }
      assert r.Success? ==> exists i :: FirstWithId(rooms, input.id, i) && rooms[i] == r.value.room by {
        if r.Success? {
          var i :| FirstWithId(rooms[1..], input.id, i) && rooms[1..][i] == r.value.room;
          assert FirstWithId(rooms, input.id, i + 1);
        }
      }
      r
  }

  /** `Create`: on a generator failure, a wrapped error and an unchanged
      store; otherwise exactly one new room, appended at the end, carrying the
      generated identifier and the requested name and description, which is
      also the room returned. No duplicate-identifier check is made. */
  function Create(rooms: seq<Room>, generated: Result<ID, Error>, input: CreateRoomInput)
    : (r: (seq<Room>, Result<CreateRoomOutput, Error>))
    ensures generated.Failure? ==> r.0 == rooms && r.1 == Failure(GenerationError(generated.error))
    ensures generated.Success? ==>
      && r.1.Success?
      && r.1.value.room.id == generated.value
      && r.1.value.room.name == input.name
      && r.1.value.room.description == input.description
      && |r.0| == |rooms| + 1
      && r.0[..|rooms|] == rooms
      && r.0[|rooms|] == r.1.value.room
  {
    match generated
    case Failure(err) => (rooms, Failure(GenerationError(err)))
    case Success(id) =>
      var room := Room(id, input.name, input.description);
      (rooms + [room], Success(CreateRoomOutput(room)))
  }

  /** The rooms left once every room carrying `id` is removed, the others in
      their original order (`slices.DeleteFunc`). */
  function Without(rooms: seq<Room>, id: ID): (r: seq<Room>)
    ensures forall x :: x in r <==> x in rooms && x.id != id
    ensures |r| <= |rooms|
  {
    if |rooms| == 0 then []
    else if rooms[0].id == id then Without(rooms[1..], id)
    else [rooms[0]] + Without(rooms[1..], id)
  }

  /** `Delete`: removes every room carrying the identifier and never fails,
      whether or not anything matched. */
  function Delete(rooms: seq<Room>, input: DeleteRoomInput)
    : (r: (seq<Room>, Result<DeleteRoomOutput, Error>))
    ensures r.1 == Success(DeleteRoomOutput)
    ensures forall x :: x in r.0 <==> x in rooms && x.id != input.id
    ensures !HasId(rooms, input.id) ==> r.0 == rooms
  {
    assert !HasId(rooms, input.id) ==> Without(rooms, input.id) == rooms by {
      if !HasId(rooms, input.id) {
        NoMatchKeepsAll(rooms, input.id);
      }
    }
    (Without(rooms, input.id), Success(DeleteRoomOutput))
  }

  /** The store as a reader capability. */
  function Reader(): (r: RoomsReader<seq<Room>>)
    ensures forall s, input :: r.find(s, input) == Find(s, input)
    ensures forall s, input :: r.get(s, input) == Get(s, input)
  {
    RoomsReader((s, input) => Find(s, input), (s, input) => Get(s, input))
  }

  /** The store as a writer capability whose generator yields `generated` on
      its next call. */
  function Writer(generated: Result<ID, Error>): (w: RoomsWriter<seq<Room>>)
    ensures forall s, input :: w.create(s, input) == Create(s, generated, input)
    ensures forall s, input :: w.delete(s, input) == Delete(s, input)
  {
    RoomsWriter((s, input) => Create(s, generated, input), (s, input) => Delete(s, input))
  }

  /** The store as a manager capability: both halves act on the same rooms
      sequence, as `RoomsAccess` implements both interfaces. */
  function Manager(generated: Result<ID, Error>): (m: RoomsManager<seq<Room>>)
    ensures forall s, input :: m.reader.find(s, input) == Find(s, input)
    ensures forall s, input :: m.reader.get(s, input) == Get(s, input)
    ensures forall s, input :: m.writer.create(s, input) == Create(s, generated, input)
    ensures forall s, input :: m.writer.delete(s, input) == Delete(s, input)
  {
    RoomsManager(Reader(), Writer(generated))
  }

  // ---------------------------------------------------------------------
  // Properties of Without / Delete

  /** Removing an identifier nobody carries changes nothing. */
  lemma {:induction false} NoMatchKeepsAll(rooms: seq<Room>, id: ID)
    requires !HasId(rooms, id)
    ensures Without(rooms, id) == rooms
  {
    if |rooms| > 0 {
      assert rooms[0].id != id;
      assert !HasId(rooms[1..], id) by {
        forall i | 0 <= i < |rooms| - 1 ensures rooms[1..][i].id != id {
          assert rooms[1..][i] == rooms[i + 1];
        }
      }
      NoMatchKeepsAll(rooms[1..], id);
      assert [rooms[0]] + rooms[1..] == rooms;
    }
  }

  /** Removal works piecewise: it keeps the relative order of the rooms it
      does not remove. */
  lemma {:induction false} WithoutAppend(a: seq<Room>, b: seq<Room>, id: ID)
    ensures Without(a + b, id) == Without(a, id) + Without(b, id)
  {
    if |a| == 0 {
      assert a + b == b;
    } else {
      assert (a + b)[0] == a[0];
      assert (a + b)[1..] == a[1..] + b;
      WithoutAppend(a[1..], b, id);
    }
  }

  /** Deleting twice is deleting once. */
  lemma DeleteIdempotent(rooms: seq<Room>, id: ID)
    ensures Delete(Delete(rooms, DeleteRoomInput(id)).0, DeleteRoomInput(id)) == Delete(rooms, DeleteRoomInput(id))
  {
    var once := Delete(rooms, DeleteRoomInput(id)).0;
    assert !HasId(once, id) by {
      forall i | 0 <= i < |once| ensures once[i].id != id {
        assert once[i] in once;
      }
    }
  }

  /** After deleting an identifier, getting it fails with not-found. */
  lemma GetAfterDelete(rooms: seq<Room>, id: ID)
    ensures Get(Delete(rooms, DeleteRoomInput(id)).0, GetRoomInput(id)) == Failure(Sentinel(NotFoundEntity))
  {
    var after := Delete(rooms, DeleteRoomInput(id)).0;
    assert !HasId(after, id) by {
      forall i | 0 <= i < |after| ensures after[i].id != id {
        assert after[i] in after;
      }
    }
  }

  /** Deleting one identifier does not change what `Get` finds for another. */
  lemma {:induction false} DeleteKeepsOthers(rooms: seq<Room>, id: ID, other: ID)
    requires other != id
    ensures Get(Delete(rooms, DeleteRoomInput(id)).0, GetRoomInput(other)) == Get(rooms, GetRoomInput(other))
  {
    if |rooms| > 0 {
      DeleteKeepsOthers(rooms[1..], id, other);
      if rooms[0].id != id {
        var rest := Without(rooms[1..], id);
        assert ([rooms[0]] + rest)[1..] == rest;
      }
    }
  }

  /** With unique identifiers, one delete removes at most one room, and
      exactly one when the identifier is present. */
  lemma {:induction false} DeleteRemovesAtMostOne(rooms: seq<Room>, id: ID)
    requires UniqueIds(rooms)
    ensures |Delete(rooms, DeleteRoomInput(id)).0| >= |rooms| - 1
    ensures HasId(rooms, id) ==> |Delete(rooms, DeleteRoomInput(id)).0| == |rooms| - 1
  {
    if |rooms| > 0 {
      var tail := rooms[1..];
      assert UniqueIds(tail) by {
        forall i, j | 0 <= i < j < |tail| ensures tail[i].id != tail[j].id {
          assert tail[i] == rooms[i + 1] && tail[j] == rooms[j + 1];
        }
      }
      if rooms[0].id == id {
        assert !HasId(tail, id) by {
          forall i | 0 <= i < |tail| ensures tail[i].id != id {
            assert tail[i] == rooms[i + 1];
          }
        }
        NoMatchKeepsAll(tail, id);
      } else {
        DeleteRemovesAtMostOne(tail, id);
        if HasId(rooms, id) {
          var i :| 0 <= i < |rooms| && rooms[i].id == id;
          assert tail[i - 1].id == id;
        }
      }
    }
  }

  /** Deleting keeps identifiers unique. */
  lemma DeletePreservesUnique(rooms: seq<Room>, id: ID)
    requires UniqueIds(rooms)
    ensures UniqueIds(Delete(rooms, DeleteRoomInput(id)).0)
  {
    UniqueWithout(rooms, id);
  }

  lemma {:induction false} UniqueWithout(rooms: seq<Room>, id: ID)
    requires UniqueIds(rooms)
    ensures UniqueIds(Without(rooms, id))
  {
    if |rooms| > 0 {
      var tail := rooms[1..];
      assert UniqueIds(tail) by {
        forall i, j | 0 <= i < j < |tail| ensures tail[i].id != tail[j].id {
          assert tail[i] == rooms[i + 1] && tail[j] == rooms[j + 1];
        }
      }
      UniqueWithout(tail, id);
      if rooms[0].id != id {
        var rest := Without(tail, id);
        forall y | y in rest ensures y.id != rooms[0].id {
          var k :| 0 <= k < |tail| && tail[k] == y;
          assert rooms[k + 1] == y;
        }
        UniqueCons(rooms[0], rest);
      }
    }
  }

  /** A room whose identifier the others do not carry keeps them unique. */
  lemma UniqueCons(x: Room, rest: seq<Room>)
    requires UniqueIds(rest)
    requires forall y :: y in rest ==> y.id != x.id
    ensures UniqueIds([x] + rest)
  {
    var r := [x] + rest;
    forall i, j | 0 <= i < j < |r| ensures r[i].id != r[j].id {
      assert r[j] == rest[j - 1];
      if i > 0 {
        assert r[i] == rest[i - 1];
      }
    }
  }

  // ---------------------------------------------------------------------
  // Properties of Create

  /** Round trip: a room created under an identifier nobody else carries is
      the one `Get` then finds. */
  lemma CreateThenGet(rooms: seq<Room>, id: ID, input: CreateRoomInput)
    requires !HasId(rooms, id)
    ensures var (after, out) := Create(rooms, Success(id), input);
      && out.Success?
      && Get(after, GetRoomInput(out.value.room.id)) == Success(GetRoomOutput(out.value.room))
      && out.value.room.name == input.name
      && out.value.room.description == input.description
  {
    var (after, out) := Create(rooms, Success(id), input);
    assert after[|rooms|].id == id;
    var g := Get(after, GetRoomInput(id));
    assert g.Success?;
    forall k | 0 <= k < |rooms| ensures after[k].id != id {
      assert after[k] == rooms[k];
    }
    var i :| FirstWithId(after, id, i) && after[i] == g.value.room;
    assert i == |rooms|;
  }

  /** Without the freshness condition the round trip can fail: when the
      generated identifier is already stored, `Get` keeps finding the older
      room, because nothing checks for duplicates on insert. */
  lemma DuplicateIdShadowsNewRoom(rooms: seq<Room>, id: ID, input: CreateRoomInput)
    requires HasId(rooms, id)
    ensures Get(Create(rooms, Success(id), input).0, GetRoomInput(id)) == Get(rooms, GetRoomInput(id))
  {
    var after := Create(rooms, Success(id), input).0;
    var r := Get(rooms, GetRoomInput(id));
    var i :| FirstWithId(rooms, id, i) && rooms[i] == r.value.room;
    assert FirstWithId(after, id, i);
    var g := Get(after, GetRoomInput(id));
    var k :| FirstWithId(after, id, k) && after[k] == g.value.room;
    assert k == i;
  }

  /** Creating under a fresh identifier keeps identifiers unique. */
  lemma CreatePreservesUnique(rooms: seq<Room>, id: ID, input: CreateRoomInput)
    requires UniqueIds(rooms) && !HasId(rooms, id)
    ensures UniqueIds(Create(rooms, Success(id), input).0)
  {
    var after := Create(rooms, Success(id), input).0;
    forall i, j | 0 <= i < j < |after| ensures after[i].id != after[j].id {
      if j == |rooms| {
        assert after[i] == rooms[i];
      } else {
        assert after[i] == rooms[i] && after[j] == rooms[j];
      }
    }
  }

  /** Starting from an empty store, two successful creates followed by
      `Find` list exactly the two new rooms, in creation order. */
  lemma ListAfterTwoCreates(a: CreateRoomInput, b: CreateRoomInput, idA: ID, idB: ID)
    ensures var (s1, outA) := Create([], Success(idA), a);
      var (s2, outB) := Create(s1, Success(idB), b);
      && outA.Success? && outB.Success?
      && Find(s2, FindRoomsInput) == Success(FindRoomsOutput([outA.value.room, outB.value.room]))
  {
    var (s1, outA) := Create([], Success(idA), a);
    var (s2, outB) := Create(s1, Success(idB), b);
    assert s2 == [outA.value.room, outB.value.room];
  }
}
