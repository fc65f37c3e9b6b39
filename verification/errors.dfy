/** Go error values as used by the core: the package-level sentinels created
    with `errors.New`, errors wrapped with `fmt.Errorf("...: %w", err)`, and any
    other error, known only by its text. */
module Errors {

  /** The sentinel errors: four from the use-case layer and three from the
      HTTP authorization helper. */
  datatype Kind =
    | NoAuthUser
    | InvalidCredential
    | NotFoundEntity
    | AlreadyExistsEntity
    | NoAuthValue
    | InvalidAuthValue
    | NotSupportedAuthType

  datatype Error =
    | Sentinel(kind: Kind)
    | Wrapped(context: string, cause: Error)
    | Other(text: string)

  /** The text each sentinel was created with. */
  function KindText(k: Kind): string
  {
    match k
    case NoAuthUser => "not exist auth user"
    case InvalidCredential => "invalid credential"
    case NotFoundEntity => "not found entity"
    case AlreadyExistsEntity => "already exists entity"
    case NoAuthValue => "no auth value"
    case InvalidAuthValue => "invalid auth header value"
    case NotSupportedAuthType => "not supported auth type"
  }

  /** `err.Error()`: a wrapped error prints its context, ": ", then its cause. */
  function Message(e: Error): (m: string)
    ensures e.Sentinel? ==> m == KindText(e.kind)
    ensures e.Wrapped? ==> m == e.context + ": " + Message(e.cause)
    ensures e.Wrapped? ==> |m| > |e.context| && m[..|e.context|] == e.context
    ensures e.Other? ==> m == e.text
  {
    match e
    case Sentinel(k) => KindText(k)
    case Wrapped(c, cause) => c + ": " + Message(cause)
    case Other(t) => t
  }

  /** The text of a wrap chain ends with the text of its innermost error:
      wrapping only ever puts context in front. */
  lemma {:induction false} MessageEndsWithRoot(e: Error)
    ensures var m, root := Message(e), Message(Root(e));
      |root| <= |m| && m[|m| - |root|..] == root
  {
    if e.Wrapped? {
      MessageEndsWithRoot(e.cause);
      var tail := Message(e.cause);
      var root := Message(Root(e));
      assert Root(e) == Root(e.cause);
      assert Message(e) == (e.context + ": ") + tail;
      assert tail[|tail| - |root|..] == root;
    }
  }

  /** The text of an error whose chain ends in a sentinel ends with that
      sentinel's text. */
  lemma MessageEndsWithKind(e: Error)
    requires Root(e).Sentinel?
    ensures var m, root := Message(e), KindText(Root(e).kind);
      |root| <= |m| && m[|m| - |root|..] == root
  {
    MessageEndsWithRoot(e);
    assert Message(Root(e)) == KindText(Root(e).kind);
  }

  /** The innermost error of a wrap chain. */
  function Root(e: Error): (r: Error)
    ensures !r.Wrapped?
    ensures !e.Wrapped? ==> r == e
  {
    match e
    case Wrapped(_, cause) => Root(cause)
    case _ => e
  }

  /** `errors.Is(e, sentinel)`: `e` or one of the errors it wraps is that
      sentinel; only the root of a chain can be a sentinel. */
  predicate Is(e: Error, k: Kind)
    ensures Is(e, k) <==> Root(e) == Sentinel(k)
  {
    match e
    case Sentinel(k') => k' == k
    case Wrapped(_, cause) => Is(cause, k)
    case Other(_) => false
  }
}
