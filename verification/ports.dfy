/** The store's ports: request and response shapes, and the reader, writer
    and manager capabilities the use cases are given.

    A capability is a record of operations over some store state `S`. A
    reader's operations return no new state, so whoever holds only a reader
    cannot change the store; a writer's operations return the next state. */
module Ports {
  import opened Wrappers
  import opened Errors
  import opened Entity

  datatype FindRoomsInput = FindRoomsInput
  datatype FindRoomsOutput = FindRoomsOutput(rooms: seq<Room>)
  datatype GetRoomInput = GetRoomInput(id: ID)
  datatype GetRoomOutput = GetRoomOutput(room: Room)
  datatype CreateRoomInput = CreateRoomInput(name: string, description: Option<string>)
  datatype CreateRoomOutput = CreateRoomOutput(room: Room)
  datatype DeleteRoomInput = DeleteRoomInput(id: ID)
  datatype DeleteRoomOutput = DeleteRoomOutput

  datatype RoomsReader<!S> = RoomsReader(
    find: (S, FindRoomsInput) -> Result<FindRoomsOutput, Error>,
    get: (S, GetRoomInput) -> Result<GetRoomOutput, Error>)

  datatype RoomsWriter<!S> = RoomsWriter(
    create: (S, CreateRoomInput) -> (S, Result<CreateRoomOutput, Error>),
    delete: (S, DeleteRoomInput) -> (S, Result<DeleteRoomOutput, Error>))

  /** Both capabilities over the same state. */
  datatype RoomsManager<!S> = RoomsManager(reader: RoomsReader<S>, writer: RoomsWriter<S>)
}
