/** The decision logic of the recovery middleware, taken out of the gin
    context: redacting `Authorization` lines in the request dump that goes to
    the log, and turning the errors a handler recorded into a response. */
module Recovery {
  import opened Wrappers
  import opened Errors
  import opened Strings
  import Auth

  // ---------------------------------------------------------------------
  // Redaction of the request dump

  const CRLF: string := "\r\n"
  const AuthorizationName: string := "Authorization"
  const RedactedAuthorization: string := "Authorization: *"

  /** The line's text before its first `:` (all of it when there is none) is
      exactly `Authorization`, compared case-sensitively. */
  predicate IsAuthorizationLine(line: string)
  {
    line == AuthorizationName
    || (|line| > |AuthorizationName| && line[..|AuthorizationName| + 1] == AuthorizationName + ":")
  }

  /** One line of the dump: an `Authorization` line loses its value, every
      other line is kept as it is. */
  function RedactLine(line: string): (r: string)
    ensures IsAuthorizationLine(line) ==> r == RedactedAuthorization
    ensures !IsAuthorizationLine(line) ==> r == line
  {
    SplitHead(line, ':');
    var head := SplitFirst(line, ':')[0];
    assert head == AuthorizationName <==> IsAuthorizationLine(line) by {
      if line == AuthorizationName {
        assert ':' !in line;
      } else if |line| > |AuthorizationName| && line[..|AuthorizationName| + 1] == AuthorizationName + ":" {
        assert ':' !in AuthorizationName;
        assert line == AuthorizationName + [':'] + line[|AuthorizationName| + 1..];
        SplitFirstOf(AuthorizationName, ':', line[|AuthorizationName| + 1..]);
      }
      if head == AuthorizationName && ':' in line {
        assert line[..|AuthorizationName| + 1] == AuthorizationName + ":";
      }
    }
    var current := Split(line, ":");
    if current[0] == AuthorizationName then current[0] + ": *" else line
  }

  /** The lines of a dump with `RedactLine` applied to each. */
  function RedactLines(lines: seq<string>): (r: seq<string>)
    ensures |r| == |lines|
    ensures forall i :: 0 <= i < |lines| ==> r[i] == RedactLine(lines[i])
  {
    seq(|lines|, i requires 0 <= i < |lines| => RedactLine(lines[i]))
  }

  /** The dump with every `Authorization` line redacted: split at `\r\n`,
      lines redacted one by one, joined again. The result has as many lines
      as the dump, each the redaction of the dump's line at that position. */
  function RedactHeaders(dump: string): (r: string)
    ensures |Split(r, CRLF)| == |Split(dump, CRLF)|
    ensures forall i :: 0 <= i < |Split(dump, CRLF)| ==>
      Split(r, CRLF)[i] == (if IsAuthorizationLine(Split(dump, CRLF)[i]) then RedactedAuthorization else Split(dump, CRLF)[i])
  {
    var lines := Split(dump, CRLF);
    var redacted := RedactLines(lines);
    RedactedLinesFree(lines);
    CrlfBorderless();
    SplitJoin(redacted, CRLF);
    Join(redacted, CRLF)
  }

  lemma CrlfBorderless()
    ensures Borderless(CRLF)
  {
    assert CRLF[1..] == "\n" && CRLF[..1] == "\r";
  }

  /** A sequence free of the separator's first element is free of it. */
  lemma FreeOfFirst<T>(s: seq<T>, sep: seq<T>)
    requires |sep| > 0 && sep[0] !in s
    ensures Free(s, sep)
  {
    forall i ensures !OccursAt(s, sep, i) {
      if 0 <= i && i + |sep| <= |s| {
        assert s[i..i + |sep|][0] == s[i];
      }
    }
  }

  /** Redaction never introduces a line break into a line. */
  lemma RedactedLinesFree(lines: seq<string>)
    requires forall k :: 0 <= k < |lines| ==> Free(lines[k], CRLF)
    ensures forall k :: 0 <= k < |lines| ==> Free(RedactLines(lines)[k], CRLF)
  {
    assert '\r' !in RedactedAuthorization;
    FreeOfFirst(RedactedAuthorization, CRLF);
  }

  /** Redacting twice is redacting once. */
  lemma RedactIdempotent(dump: string)
    ensures RedactHeaders(RedactHeaders(dump)) == RedactHeaders(dump)
  {
    var once := RedactHeaders(dump);
    var lines := Split(dump, CRLF);
    var redacted := RedactLines(lines);
    assert Split(once, CRLF) == redacted;
    assert IsAuthorizationLine(RedactedAuthorization) by {
      assert RedactedAuthorization[..|AuthorizationName| + 1] == AuthorizationName + ":";
    }
    assert RedactLines(redacted) == redacted;
  }

  // ---------------------------------------------------------------------
  // Errors recorded on the request, and the response they select

  /** gin's error type flags, a 64-bit mask. */
  const ErrorTypeBind: bv64 := 1 << 63
  const ErrorTypeRender: bv64 := 1 << 62
  const ErrorTypePrivate: bv64 := 1
  const ErrorTypePublic: bv64 := 2
  const ErrorTypeAny: bv64 := 0xFFFF_FFFF_FFFF_FFFF

  /** An error recorded with `c.Error(err)`, with its type flags. */
  datatype GinError = GinError(err: Error, flags: bv64)

  predicate IsType(e: GinError, flags: bv64)
  {
    e.flags & flags != 0
  }

  /** `c.Errors.ByType(flags)`: the recorded errors of that type, in order. */
  function ByType(errs: seq<GinError>, flags: bv64): (r: seq<GinError>)
    ensures flags != ErrorTypeAny ==> forall x :: x in r <==> x in errs && IsType(x, flags)
  {
    if flags == ErrorTypeAny then errs else Filter(errs, flags)
  }

  function Filter(errs: seq<GinError>, flags: bv64): (r: seq<GinError>)
    ensures forall x :: x in r <==> x in errs && IsType(x, flags)
  {
    if |errs| == 0 then []
    else if IsType(errs[0], flags) then [errs[0]] + Filter(errs[1..], flags)
    else Filter(errs[1..], flags)
  }

  /** `errs[i]` is the first recorded error of the type. */
  ghost predicate FirstOfType(errs: seq<GinError>, flags: bv64, i: int)
  {
    0 <= i < |errs| && IsType(errs[i], flags) && forall j :: 0 <= j < i ==> !IsType(errs[j], flags)
  }

  /** The head of a filtered list is the first error of the type. */
  lemma {:induction false} FilterHead(errs: seq<GinError>, flags: bv64)
    ensures |Filter(errs, flags)| > 0 <==> exists i :: FirstOfType(errs, flags, i)
    ensures forall i :: FirstOfType(errs, flags, i) ==> Filter(errs, flags)[0] == errs[i]
  {
    if |errs| > 0 {
      FilterHead(errs[1..], flags);
      if IsType(errs[0], flags) {
        assert FirstOfType(errs, flags, 0);
      } else {
        forall i | FirstOfType(errs, flags, i) ensures FirstOfType(errs[1..], flags, i - 1) {
          assert i != 0;
        }
        if exists i :: FirstOfType(errs[1..], flags, i) {
          var i :| FirstOfType(errs[1..], flags, i);
          assert FirstOfType(errs, flags, i + 1);
        }
      }
    }
  }

  datatype Response = Response(code: int, message: string)

  /** `http.StatusText` for the five codes the middleware can choose; every
      other code is outside this model and gets the empty text. */
  function StatusText(code: int): (text: string)
    ensures code == 400 ==> text == "Bad Request"
    ensures code == 401 ==> text == "Unauthorized"
    ensures code == 404 ==> text == "Not Found"
    ensures code == 409 ==> text == "Conflict"
    ensures code == 500 ==> text == "Internal Server Error"
  {
    if code == 400 then "Bad Request"
    else if code == 401 then "Unauthorized"
    else if code == 404 then "Not Found"
    else if code == 409 then "Conflict"
    else if code == 500 then "Internal Server Error"
    else ""
  }

  /** The response for the first public error: not-found wins, then
      already-exists, then authentication errors, whose own text becomes the
      message; anything else is a bad request. A message left empty becomes
      the status text. */
  function PublicResponse(e: Error): (r: Response)
    ensures Is(e, NotFoundEntity) ==> r == Response(404, "Not Found")
    ensures !Is(e, NotFoundEntity) && Is(e, AlreadyExistsEntity) ==> r == Response(409, "Conflict")
    ensures !Is(e, NotFoundEntity) && !Is(e, AlreadyExistsEntity) && Auth.IsAuthError(e) ==>
      r == Response(401, Message(e))
    ensures !Is(e, NotFoundEntity) && !Is(e, AlreadyExistsEntity) && !Auth.IsAuthError(e) ==>
      r == Response(400, "Bad Request")
  {
    var code :=
      if Is(e, NotFoundEntity) then 404
      else if Is(e, AlreadyExistsEntity) then 409
      else if Auth.IsAuthError(e) then 401
      else 400;
    var msg := if code == 401 then Message(e) else "";
    assert code == 401 ==> |msg| > 0 by {
      if code == 401 {
        AuthErrorHasText(e);
      }
    }
    Response(code, if |msg| == 0 then StatusText(code) else msg)
  }

  /** An authentication error's text is never empty: its root is a sentinel
      and wrapping only adds text. */
  lemma AuthErrorHasText(e: Error)
    requires Auth.IsAuthError(e)
    ensures |Message(e)| > 0
  {
  }

  /** The response chosen from the recorded errors: a bind error wins with a
      400 carrying its own text, else the first public error decides, else
      nothing is written. */
  function ErrorResponse(errs: seq<GinError>): (r: Option<Response>)
    ensures forall i :: FirstOfType(errs, ErrorTypeBind, i) ==> r == Some(Response(400, Message(errs[i].err)))
    ensures forall i :: (forall j :: 0 <= j < |errs| ==> !IsType(errs[j], ErrorTypeBind)) && FirstOfType(errs, ErrorTypePublic, i) ==>
      r == Some(PublicResponse(errs[i].err))
    ensures r.None? <==> forall j :: 0 <= j < |errs| ==> !IsType(errs[j], ErrorTypeBind) && !IsType(errs[j], ErrorTypePublic)
  {
    FilterHead(errs, ErrorTypeBind);
    FilterHead(errs, ErrorTypePublic);
    var binds := ByType(errs, ErrorTypeBind);
    if |binds| > 0 then Some(Response(400, Message(binds[0].err)))
    else
      var publics := ByType(errs, ErrorTypePublic);
      assert forall j :: 0 <= j < |errs| ==> !IsType(errs[j], ErrorTypeBind) by {
        forall j | 0 <= j < |errs| ensures !IsType(errs[j], ErrorTypeBind) {
          assert errs[j] in errs;
        }
      }
      if |publics| > 0 then Some(PublicResponse(publics[0].err))
      else
        assert forall j :: 0 <= j < |errs| ==> !IsType(errs[j], ErrorTypePublic) by {
          forall j | 0 <= j < |errs| ensures !IsType(errs[j], ErrorTypePublic) {
            assert errs[j] in errs;
          }
        }
        None
  }

  // ---------------------------------------------------------------------
  // The recovered panic

  /** What `recover()` returned: an error value, or any other value given by
      its `%v` text. */
  datatype PanicValue = ErrorValue(err: Error) | OtherValue(text: string)

  /** A recovered panic. A broken connection (a broken pipe or a reset by the
      peer) can only be recognised when the value is a network error, so it
      always carries an error; that test looks into network error types and
      is taken as given. Any other panic may carry any value. */
  datatype Panic = Crash(value: PanicValue) | BrokenConnection(err: Error)

  /** The error a recovered value is turned into, as written: in the branch
      for non-error values the variable formatted is the failed type
      assertion's zero value, a nil error, so the text is always `<nil>`. */
  function PanicErrorAsWritten(p: PanicValue): (e: Error)
    ensures p.ErrorValue? ==> e == p.err
    ensures p.OtherValue? ==> Message(e) == "<nil>"
  {
    match p
    case ErrorValue(err) => err
    case OtherValue(_) => Other("<nil>")
  }

  /** The intended conversion: a non-error value keeps its own text. This
      idealises the source, which passes that text to `fmt.Errorf` as the
      format, so a `%` in it would be read as a verb. */
  function PanicError(p: PanicValue): (e: Error)
    ensures p.ErrorValue? ==> e == p.err
    ensures p.OtherValue? ==> Message(e) == p.text
  {
    match p
    case ErrorValue(err) => err
    case OtherValue(t) => Other(t)
  }

  /** The two conversions differ for every non-error panic value whose text
      is not `<nil>`, such as `panic("boom")`. */
  lemma PanicTextLost()
    ensures Message(PanicErrorAsWritten(OtherValue("boom"))) != Message(PanicError(OtherValue("boom")))
  {
  }

  /** What the middleware does: the errors recorded afterwards, the status
      written by `AbortWithStatus`, whether the chain was aborted, and the
      JSON response chosen from the errors. */
  datatype Outcome = Outcome(errors: seq<GinError>, abortStatus: Option<int>, aborted: bool, response: Option<Response>)

  /** A panic that is not a broken connection aborts with 500; a broken
      connection records its error as a private error and aborts without a
      status. Either way the response is chosen from the errors the handler
      recorded, since a private error is neither bind nor public. */
  function Recover(panic: Option<Panic>, errs: seq<GinError>): (r: Outcome)
    ensures panic.Some? && panic.value.Crash? ==> r.abortStatus == Some(500) && r.errors == errs
    ensures panic.Some? && panic.value.BrokenConnection? ==>
      r.abortStatus.None? && r.errors == errs + [GinError(panic.value.err, ErrorTypePrivate)]
    ensures panic.None? ==> r.abortStatus.None? && r.errors == errs
    ensures r.aborted <==> panic.Some? || r.response.Some?
    ensures r.response == ErrorResponse(errs)
  {
    var recorded :=
      if panic.Some? && panic.value.BrokenConnection? then errs + [GinError(panic.value.err, ErrorTypePrivate)]
      else errs;
    var status := if panic.Some? && panic.value.Crash? then Some(500) else None;
    PrivateErrorIgnored(errs, if panic.Some? && panic.value.BrokenConnection? then panic.value.err else Other(""));
    var response := ErrorResponse(recorded);
    Outcome(recorded, status, panic.Some? || response.Some?, response)
  }

  /** Recording one more private error does not change the response. */
  lemma PrivateErrorIgnored(errs: seq<GinError>, e: Error)
    ensures ErrorResponse(errs + [GinError(e, ErrorTypePrivate)]) == ErrorResponse(errs)
  {
    var more := errs + [GinError(e, ErrorTypePrivate)];
    assert !IsType(GinError(e, ErrorTypePrivate), ErrorTypeBind);
    assert !IsType(GinError(e, ErrorTypePrivate), ErrorTypePublic);
    FilterSnoc(errs, GinError(e, ErrorTypePrivate), ErrorTypeBind);
    FilterSnoc(errs, GinError(e, ErrorTypePrivate), ErrorTypePublic);
  }

  /** Filtering ignores a trailing error of another type. */
  lemma {:induction false} FilterSnoc(errs: seq<GinError>, x: GinError, flags: bv64)
    requires !IsType(x, flags)
    ensures Filter(errs + [x], flags) == Filter(errs, flags)
  {
    if |errs| == 0 {
      assert errs + [x] == [x];
      assert [x][1..] == [];
    } else {
      assert (errs + [x])[1..] == errs[1..] + [x];
      FilterSnoc(errs[1..], x, flags);
    }
  }
}
