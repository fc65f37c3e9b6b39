/** The ULID identifier generator, as an abstract fallible generator: the
    token's timestamp, randomness and base32 text are not modelled, only that
    the token is 26 characters long and goes through `ParseID`. */
module Ulid {
  import opened Wrappers
  import opened Errors
  import opened Entity

  const TokenLength: nat := 26

  /** `ULIDGenerator.Generate` for a freshly made token: always a valid
      identifier holding exactly the token's 26 characters. */
  function Generate(token: string): (r: Result<ID, Error>)
    requires |token| == TokenLength
    ensures r.Success?
    ensures Validate(r.value).None? && IdString(r.value) == token && |IdString(r.value)| == TokenLength
  {
    var (id, err) := ParseId(token);
    match err
    case None => Success(id)
    case Some(e) => Failure(e)
  }
}
