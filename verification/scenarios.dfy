/** The use cases run against the in-memory store, and the answer the
    recovery middleware gives for the errors they and the header parser
    produce. */
module Scenarios {
  import opened Wrappers
  import opened Errors
  import opened Entity
  import opened Interactors
  import DummyRooms
  import Auth
  import Recovery

  /** Listing through the store's reader returns every stored room, in
      order. */
  lemma ListRoomsOnStore(s: seq<Room>)
    ensures ListRooms(DummyRooms.Reader(), s, ListRoomsInput) == Success(ListRoomsOutput(s))
  {
  }

  /** Getting an identifier nobody carries fails with the not-found
      sentinel, which the middleware answers with 404 once it is recorded as
      public. */
  lemma GetMissingRoomIsNotFound(s: seq<Room>, id: ID)
    requires !DummyRooms.HasId(s, id)
    ensures var r := GetRoom(DummyRooms.Reader(), s, GetRoomInput(id));
      && r == Failure(Sentinel(NotFoundEntity))
      && Recovery.ErrorResponse([Recovery.GinError(r.error, Recovery.ErrorTypePublic)])
         == Some(Recovery.Response(404, "Not Found"))
  {
    var e := Sentinel(NotFoundEntity);
    var errs := [Recovery.GinError(e, Recovery.ErrorTypePublic)];
    assert Recovery.FirstOfType(errs, Recovery.ErrorTypePublic, 0);
  }

  /** Round trip through the use cases: a room created with a fresh
      identifier is what getting that identifier returns afterwards. */
  lemma CreateThenGetRoom(s: seq<Room>, id: ID, input: CreateRoomInput)
    requires !DummyRooms.HasId(s, id)
    ensures var (s', created) := CreateRoom(DummyRooms.Manager(Success(id)), s, input);
      && created.Success?
      && created.value.room == Room(id, input.name, input.description)
      && GetRoom(DummyRooms.Reader(), s', GetRoomInput(id)) == Success(GetRoomOutput(created.value.room))
  {
    DummyRooms.CreateThenGet(s, id, Ports.CreateRoomInput(input.name, input.description));
  }

  /** A failing identifier generator leaves the store as it was and surfaces
      the wrapped generator error. */
  lemma CreateRoomGeneratorFails(s: seq<Room>, cause: Error, input: CreateRoomInput)
    ensures CreateRoom(DummyRooms.Manager(Failure(cause)), s, input)
      == (s, Failure(DummyRooms.GenerationError(cause)))
    ensures Root(DummyRooms.GenerationError(cause)) == Root(cause)
  {
  }

  /** Deleting always succeeds without a room in the output, and the
      identifier is gone afterwards whether or not it was stored. */
  lemma DeleteThenGetRoom(s: seq<Room>, generated: Result<ID, Error>, id: ID)
    ensures var (s', deleted) := DeleteRoom(DummyRooms.Manager(generated), s, DeleteRoomInput(id));
      && deleted == Success(DeleteRoomOutput(None))
      && GetRoom(DummyRooms.Reader(), s', GetRoomInput(id)) == Failure(Sentinel(NotFoundEntity))
  {
    DummyRooms.GetAfterDelete(s, id);
  }

  /** An authentication error recorded as public is answered with 401 and
      the error's own text, which ends with the text of the sentinel at the
      root of its wrap chain. */
  lemma AuthErrorIsUnauthorized(e: Error)
    requires Auth.IsAuthError(e)
    ensures Recovery.ErrorResponse([Recovery.GinError(e, Recovery.ErrorTypePublic)])
      == Some(Recovery.Response(401, Message(e)))
    ensures var m, root := Message(e), KindText(Root(e).kind);
      |root| <= |m| && m[|m| - |root|..] == root
  {
    var errs := [Recovery.GinError(e, Recovery.ErrorTypePublic)];
    assert Recovery.ErrorResponse(errs) == Some(Recovery.PublicResponse(e)) by {
      assert Recovery.FirstOfType(errs, Recovery.ErrorTypePublic, 0);
    }
    assert !Is(e, NotFoundEntity) && !Is(e, AlreadyExistsEntity);
    Auth.AuthErrorText(e);
  }

  /** Hence every failure of the header parser is answered that way. */
  lemma AuthFailureIsUnauthorized(header: string)
    ensures var r := Auth.GetAuthInfo(header);
      r.Failure? ==>
        Recovery.ErrorResponse([Recovery.GinError(r.error, Recovery.ErrorTypePublic)])
          == Some(Recovery.Response(401, Message(r.error)))
  {
    var r := Auth.GetAuthInfo(header);
    if r.Failure? {
      AuthErrorIsUnauthorized(r.error);
    }
  }
}
