/** The four room use cases. Each forwards its input to the store port
    unchanged, returns a store error unchanged with no output, and otherwise
    repackages the store's answer. None of them validates its input.

    Listing and getting are given only a reader, so they return no store
    state: by construction they cannot change the store. Creating and
    deleting are given the whole manager. */
module Interactors {
  import opened Wrappers
  import opened Errors
  import opened Entity
  import Ports

  datatype ListRoomsInput = ListRoomsInput
  datatype ListRoomsOutput = ListRoomsOutput(rooms: seq<Room>)
  datatype GetRoomInput = GetRoomInput(id: ID)
  datatype GetRoomOutput = GetRoomOutput(room: Room)
  datatype CreateRoomInput = CreateRoomInput(name: string, description: Option<string>)
  datatype CreateRoomOutput = CreateRoomOutput(room: Room)
  datatype DeleteRoomInput = DeleteRoomInput(id: ID)
  /** `room` is Go's `*entity.Room`, never set by the delete use case. */
  datatype DeleteRoomOutput = DeleteRoomOutput(room: Option<Room>)

  /** Lists the rooms through the reader's `Find`, called with the empty input. */
  function ListRooms<S>(rooms: Ports.RoomsReader<S>, st: S, input: ListRoomsInput)
    : (r: Result<ListRoomsOutput, Error>)
    ensures var out := rooms.find(st, Ports.FindRoomsInput);
      && (r.Failure? <==> out.Failure?)
      && (r.Failure? ==> r.error == out.error)
      && (r.Success? ==> r.value.rooms == out.value.rooms)
  {
    match rooms.find(st, Ports.FindRoomsInput)
    case Failure(err) => Failure(err)
    case Success(out) => Success(ListRoomsOutput(out.rooms))
  }

  /** Gets one room through the reader, asking for the same identifier. */
  function GetRoom<S>(rooms: Ports.RoomsReader<S>, st: S, input: GetRoomInput)
    : (r: Result<GetRoomOutput, Error>)
    ensures var out := rooms.get(st, Ports.GetRoomInput(input.id));
      && (r.Failure? <==> out.Failure?)
      && (r.Failure? ==> r.error == out.error)
      && (r.Success? ==> r.value.room == out.value.room)
  {
    match rooms.get(st, Ports.GetRoomInput(input.id))
    case Failure(err) => Failure(err)
    case Success(out) => Success(GetRoomOutput(out.room))
  }

  /** Creates a room through the writer, passing name and description on
      as they are (an empty name included). */
  function CreateRoom<S>(rooms: Ports.RoomsManager<S>, st: S, input: CreateRoomInput)
    : (r: (S, Result<CreateRoomOutput, Error>))
    ensures var (st', out) := rooms.writer.create(st, Ports.CreateRoomInput(input.name, input.description));
      && r.0 == st'
      && (r.1.Failure? <==> out.Failure?)
      && (r.1.Failure? ==> r.1.error == out.error)
      && (r.1.Success? ==> r.1.value.room == out.value.room)
  {
    var (st', out) := rooms.writer.create(st, Ports.CreateRoomInput(input.name, input.description));
    match out
    case Failure(err) => (st', Failure(err))
    case Success(o) => (st', Success(CreateRoomOutput(o.room)))
  }

  /** Deletes through the writer, asking for the same identifier; on success
      the output carries no room. */
  function DeleteRoom<S>(rooms: Ports.RoomsManager<S>, st: S, input: DeleteRoomInput)
    : (r: (S, Result<DeleteRoomOutput, Error>))
    ensures var (st', out) := rooms.writer.delete(st, Ports.DeleteRoomInput(input.id));
      && r.0 == st'
      && (r.1.Failure? <==> out.Failure?)
      && (r.1.Failure? ==> r.1.error == out.error)
      && (r.1.Success? ==> r.1.value.room.None?)
  {
    var (st', out) := rooms.writer.delete(st, Ports.DeleteRoomInput(input.id));
    match out
    case Failure(err) => (st', Failure(err))
    case Success(_) => (st', Success(DeleteRoomOutput(None)))
  }
}
