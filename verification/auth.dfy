/** The `Authorization` header parser: a restricted form of HTTP Basic
    authentication (section 2 of RFC 7617). The header value is split at its
    first space into a scheme and a credential, both trimmed; only the scheme
    `Basic` (compared case-sensitively) is accepted; the credential must be
    standard padded base64 whose decoded bytes hold exactly one `:`, with a
    non-empty user before it and a non-empty password after it. Unlike the
    RFC, a password containing `:` is therefore rejected. */
module Auth {
  import opened Wrappers
  import opened Errors
  import opened Strings
  import opened Base64

  datatype Auth = Auth(user: seq<byte>, password: seq<byte>)

  /** The byte of `:`. */
  const Colon: byte := 58

  const BasicScheme: string := "Basic"

  /** The decoded credential text `user:password`. */
  function Credentials(a: Auth): seq<byte>
  {
    a.user + [Colon] + a.password
  }

  /** What a successful parse yields: both parts non-empty, neither holding
      a `:`. */
  predicate WellFormed(a: Auth)
  {
    |a.user| > 0 && |a.password| > 0 && Colon !in a.user && Colon !in a.password
  }

  /** The five sentinels that count as authentication failures. */
  const AuthKinds: set<Kind> := {NoAuthValue, InvalidAuthValue, NotSupportedAuthType, NoAuthUser, InvalidCredential}

  /** `IsAuthError`: `errors.Is` against each of the five sentinels. An error
      is an authentication error exactly when the root of its wrap chain is
      one of them. */
  predicate IsAuthError(e: Error)
    ensures IsAuthError(e) <==> Root(e).Sentinel? && Root(e).kind in AuthKinds
  {
    || Is(e, NoAuthValue)
    || Is(e, InvalidAuthValue)
    || Is(e, NotSupportedAuthType)
    || Is(e, NoAuthUser)
    || Is(e, InvalidCredential)
  }

  /** The text of an authentication error ends with the text of its
      sentinel, however deeply it is wrapped. */
  lemma AuthErrorText(e: Error)
    requires IsAuthError(e)
    ensures Root(e).Sentinel?
    ensures var m, root := Message(e), KindText(Root(e).kind);
      |root| <= |m| && m[|m| - |root|..] == root
  {
    MessageEndsWithKind(e);
  }

  /** `getBasicAuthInfo`: decodes the credential. Every failure is the
      invalid-value sentinel; a success is well formed and is what the
      credential decodes to. */
  function BasicAuthInfo(value: string): (r: Result<Auth, Error>)
    ensures r.Failure? ==> r.error == Sentinel(InvalidAuthValue)
    ensures r.Success? ==> WellFormed(r.value) && DecodeString(value) == Some(Credentials(r.value))
  {
    match DecodeString(value)
    case None => Failure(Sentinel(InvalidAuthValue))
    case Some(dec) =>
      var parts := Split(dec, [Colon]);
      if |parts| != 2 then Failure(Sentinel(InvalidAuthValue))
      else
        var a := Auth(parts[0], parts[1]);
        if |a.user| == 0 || |a.password| == 0 then Failure(Sentinel(InvalidAuthValue))
        else
          FreeSingleton(parts[0], Colon);
          FreeSingleton(parts[1], Colon);
          assert Join(parts, [Colon]) == Credentials(a);
          Success(a)
  }

  /** Conversely, every credential that decodes to a well-formed
      `user:password` is accepted, with exactly that user and password. */
  lemma BasicAuthComplete(value: string, a: Auth)
    requires WellFormed(a) && DecodeString(value) == Some(Credentials(a))
    ensures BasicAuthInfo(value) == Success(a)
  {
    FreeSingleton(a.user, Colon);
    FreeSingleton(a.password, Colon);
    SingletonBorderless(Colon);
    assert Join([a.user, a.password], [Colon]) == Credentials(a);
    SplitJoin([a.user, a.password], [Colon]);
  }

  /** `GetAuthInfo` on the raw header value (absent and empty are the same). */
  function GetAuthInfo(header: string): (r: Result<Auth, Error>)
    ensures r == Failure(Sentinel(NoAuthValue)) <==> |header| == 0
    ensures |header| > 0 && ' ' !in header ==> r == Failure(Sentinel(InvalidAuthValue))
    ensures ' ' in header ==>
      var parts := SplitFirst(header, ' ');
      && (r == Failure(Sentinel(NotSupportedAuthType)) <==> TrimSpace(parts[0]) != BasicScheme)
      && (TrimSpace(parts[0]) == BasicScheme ==> r == BasicAuthInfo(TrimSpace(parts[1])))
    ensures r.Failure? ==> IsAuthError(r.error)
  {
    if |header| == 0 then Failure(Sentinel(NoAuthValue))
    else
      var parts := SplitFirst(header, ' ');
      if |parts| != 2 then Failure(Sentinel(InvalidAuthValue))
      else
        var scheme := TrimSpace(parts[0]);
        var value := TrimSpace(parts[1]);
        if scheme != BasicScheme then Failure(Sentinel(NotSupportedAuthType))
        else BasicAuthInfo(value)
  }

  /** No character of an encoding is white space. */
  lemma EncodedNotSpace(c: char)
    requires IsEncodedChar(c)
    ensures !IsSpace(c)
  {
    assert c == '=' || c == '+' || c == '/' || 'A' <= c <= 'Z' || 'a' <= c <= 'z' || '0' <= c <= '9';
  }

  /** Round trip: `Basic ` followed by the base64 encoding of
      `user:password` parses back to that user and password, for every
      non-empty user and password without `:`. */
  lemma BasicRoundTrip(a: Auth)
    requires WellFormed(a)
    ensures GetAuthInfo(BasicScheme + " " + Encode(Credentials(a))) == Success(a)
  {
    var encoded := Encode(Credentials(a));
    var header := BasicScheme + " " + encoded;
    assert ' ' in header by {
      assert header[|BasicScheme|] == ' ';
    }
    assert SplitFirst(header, ' ') == [BasicScheme, encoded] by {
      assert header == BasicScheme + [' '] + encoded;
      SplitFirstOf(BasicScheme, ' ', encoded);
    }
    assert TrimSpace(BasicScheme) == BasicScheme by {
      TrimSpaceNoop(BasicScheme);
    }
    assert TrimSpace(encoded) == encoded by {
      assert |encoded| > 0;
      EncodedNotSpace(encoded[0]);
      EncodedNotSpace(encoded[|encoded| - 1]);
      TrimSpaceNoop(encoded);
    }
    assert BasicAuthInfo(encoded) == Success(a) by {
      DecodeEncode(Credentials(a));
      BasicAuthComplete(encoded, a);
    }
  }
}
