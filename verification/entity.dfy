/** The entities: the identifier value object and the room. */
module Entity {
  import opened Wrappers
  import opened Errors

  /** An identifier is a string; the only invariant, checked by `Validate`,
      is that it is not empty. */
  datatype ID = ID(value: string)

  /** The error `Validate` reports for the empty identifier. */
  const EmptyIdError: Error := Other("empty")

  /** The error `ParseID` returns: the validation error, wrapped. */
  const InvalidIdError: Error := Wrapped("invalid id", EmptyIdError)

  /** `ID.Validate`: `None` (Go's nil) exactly for a non-empty identifier. */
  function Validate(id: ID): (err: Option<Error>)
    ensures err.None? <==> |id.value| > 0
    ensures err.Some? ==> err.value == EmptyIdError
  {
    if |id.value| == 0 then Some(EmptyIdError) else None
  }

  /** `ID.String`. */
  function IdString(id: ID): (s: string)
    ensures ID(s) == id
  {
    id.value
  }

  /** `ParseID`, returning Go's `(ID, error)` pair: the empty string gives
      the empty identifier with a wrapped validation error; any other string
      gives the identifier made of exactly that string. */
  function ParseId(v: string): (r: (ID, Option<Error>))
    ensures r.1.None? <==> |v| > 0
    ensures r.1.None? ==> r.0 == ID(v) && Validate(r.0).None?
    ensures r.1.Some? ==> r.0 == ID("") && r.1.value == InvalidIdError
  {
    var id := ID(v);
    match Validate(id)
    case Some(err) => (ID(""), Some(Wrapped("invalid id", err)))
    case None => (ID(v), None)
  }

  /** Printing a parsed identifier gives back the text it was parsed from. */
  lemma ParseIdString(v: string)
    requires |v| > 0
    ensures IdString(ParseId(v).0) == v
    ensures ParseId(v).1.None?
  {
  }

  /** Parsing the text of a valid identifier gives that identifier back. */
  lemma StringParseId(id: ID)
    requires Validate(id).None?
    ensures ParseId(IdString(id)) == (id, None)
  {
  }

  /** A room. `description` is Go's `*string`: absent or present. The
      never-populated message and user lists are not part of this model. */
  datatype Room = Room(id: ID, name: string, description: Option<string>)
}
