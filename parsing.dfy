/** `try_parse`: parse the build script under each grammar version the parser knows, newest
    first, and keep the first success.  The parser itself is a function from a grammar version
    and the script's contents to a parsed module or a syntax error. */
module Parsing {
  import opened Wrappers

  /** What `try_parse` returns for `data` and the grammar versions `versions`, listed oldest
      first as the parser lists them: the newest version is tried first. */
  function NewestParse<D, M, E>(versions: seq<string>, parse: (string, D) -> Result<M, E>, data: D): Result<M, ParseFailure<E>>
    decreases |versions|
  {
    if |versions| == 0 then Failure(UnknownParseFailure)
    else
      var last := |versions| - 1;
      match parse(versions[last], data)
      case Success(m) => Success(m)
      case Failure(e) =>
        match NewestParse(versions[..last], parse, data)
        case Success(m) => Success(m)
        case Failure(_) => Failure(Syntax(e))
  }

  /** The grammar versions tried, in the order they are tried: newest first, stopping at the
      first one that parses. */
  function Attempts<D, M, E>(versions: seq<string>, parse: (string, D) -> Result<M, E>, data: D): seq<string>
    decreases |versions|
  {
    if |versions| == 0 then []
    else
      var last := |versions| - 1;
      [versions[last]] + (if parse(versions[last], data).Success? then [] else Attempts(versions[..last], parse, data))
  }

  /** The error kept so far combined with the outcome of the versions not yet tried. */
  function Outcome<M, E>(kept: Option<E>, rest: Result<M, ParseFailure<E>>): Result<M, ParseFailure<E>> {
    match kept
    case None => rest
    case Some(e) => if rest.Success? then rest else Failure(Syntax(e))
  }

  /** The loop over `KNOWN_PYTHON_VERSION_STRINGS[::-1]`: return at the first success, keep
      the first syntax error, and raise it (or the generic failure) when all have failed.
      `tried` records the versions handed to the parser. */
  method TryParse<D, M, E>(versions: seq<string>, parse: (string, D) -> Result<M, E>, data: D)
    returns (r: Result<M, ParseFailure<E>>, ghost tried: seq<string>)
    ensures r == NewestParse(versions, parse, data)
    ensures tried == Attempts(versions, parse, data)
  {
    var parseError: Option<E> := None;
    var i := |versions|;
    tried := [];
    assert versions[..i] == versions;
    while i > 0
      invariant 0 <= i <= |versions|
      invariant NewestParse(versions, parse, data) == Outcome(parseError, NewestParse(versions[..i], parse, data))
      invariant Attempts(versions, parse, data) == tried + Attempts(versions[..i], parse, data)
      invariant parseError.None? <==> i == |versions|
    {
      i := i - 1;
      var res := parse(versions[i], data);
      NewestStep(versions, i, parse, data);
      tried := tried + [versions[i]];
      if res.Success? {
        return Success(res.value), tried;
      }
      if parseError.None? {
        parseError := Some(res.error);
      }
    }
    match parseError
    case None => r := Failure(UnknownParseFailure);
    case Some(e) => r := Failure(Syntax(e));
  }

  /** One turn of the loop: trying version `i` after the newer ones. */
  lemma NewestStep<D, M, E>(versions: seq<string>, i: nat, parse: (string, D) -> Result<M, E>, data: D)
    requires i < |versions|
    ensures parse(versions[i], data).Success? ==>
      NewestParse(versions[..i + 1], parse, data) == Success(parse(versions[i], data).value) &&
      Attempts(versions[..i + 1], parse, data) == [versions[i]]
    ensures parse(versions[i], data).Failure? ==>
      NewestParse(versions[..i + 1], parse, data) ==
        Outcome(Some(parse(versions[i], data).error), NewestParse(versions[..i], parse, data)) &&
      Attempts(versions[..i + 1], parse, data) == [versions[i]] + Attempts(versions[..i], parse, data)
  {
    assert versions[..i + 1][..i] == versions[..i];
    assert versions[..i + 1][i] == versions[i];
  }

  /** Parsing succeeds exactly when some grammar version accepts the script, and then the
      module is the one from the newest such version: every newer version failed. */
  lemma {:induction false} NewestParseSuccess<D, M, E>(versions: seq<string>, parse: (string, D) -> Result<M, E>, data: D)
    ensures NewestParse(versions, parse, data).Success? <==>
      exists k | 0 <= k < |versions| :: parse(versions[k], data).Success?
    ensures NewestParse(versions, parse, data).Success? ==>
      exists j | 0 <= j < |versions| ::
        parse(versions[j], data) == Success(NewestParse(versions, parse, data).value) &&
        forall k | j < k < |versions| :: parse(versions[k], data).Failure?
    decreases |versions|
  {
    if |versions| > 0 {
      var last := |versions| - 1;
      var prefix := versions[..last];
      NewestParseSuccess(prefix, parse, data);
      assert forall k | 0 <= k < last :: prefix[k] == versions[k];
      if parse(versions[last], data).Failure? && NewestParse(versions, parse, data).Success? {
        var j :| 0 <= j < |prefix| &&
          parse(prefix[j], data) == Success(NewestParse(prefix, parse, data).value) &&
          forall k | j < k < |prefix| :: parse(prefix[k], data).Failure?;
        assert parse(versions[j], data) == Success(NewestParse(versions, parse, data).value);
      }
    }
  }

  /** When every version fails, the error raised is the newest version's; the generic
      failure is raised only when there are no versions at all. */
  lemma {:induction false} NewestParseFailure<D, M, E>(versions: seq<string>, parse: (string, D) -> Result<M, E>, data: D)
    ensures NewestParse(versions, parse, data) == Failure(UnknownParseFailure) <==> |versions| == 0
    ensures |versions| > 0 && NewestParse(versions, parse, data).Failure? ==>
      NewestParse(versions, parse, data) == Failure(Syntax(parse(versions[|versions| - 1], data).error))
  {
  }

  /** The parser is called on the newest version first, then on each older one in turn. */
  lemma {:induction false} AttemptsNewestFirst<D, M, E>(versions: seq<string>, parse: (string, D) -> Result<M, E>, data: D)
    ensures |Attempts(versions, parse, data)| <= |versions|
    ensures forall k | 0 <= k < |Attempts(versions, parse, data)| ::
      Attempts(versions, parse, data)[k] == versions[|versions| - 1 - k]
    decreases |versions|
  {
    if |versions| > 0 {
      var last := |versions| - 1;
      var prefix := versions[..last];
      AttemptsNewestFirst(prefix, parse, data);
      var a := Attempts(versions, parse, data);
      var rest := if parse(versions[last], data).Success? then [] else Attempts(prefix, parse, data);
      assert a == [versions[last]] + rest;
      forall k | 0 < k < |a| ensures a[k] == versions[|versions| - 1 - k] {
        assert a[k] == rest[k - 1];
        assert prefix[|prefix| - 1 - (k - 1)] == versions[|versions| - 1 - k];
      }
    }
  }

  /** Every version tried before the last one failed, and nothing is tried after a success:
      the last version tried is the one whose module is returned; when all fail, every
      version has been tried. */
  lemma {:induction false} AttemptsStopAtSuccess<D, M, E>(versions: seq<string>, parse: (string, D) -> Result<M, E>, data: D)
    ensures forall k | 0 <= k < |Attempts(versions, parse, data)| - 1 ::
      parse(Attempts(versions, parse, data)[k], data).Failure?
    ensures NewestParse(versions, parse, data).Success? ==>
      |Attempts(versions, parse, data)| > 0 &&
      parse(Attempts(versions, parse, data)[|Attempts(versions, parse, data)| - 1], data) ==
        Success(NewestParse(versions, parse, data).value)
    ensures NewestParse(versions, parse, data).Failure? ==> |Attempts(versions, parse, data)| == |versions|
    decreases |versions|
  {
    if |versions| > 0 {
      var last := |versions| - 1;
      var prefix := versions[..last];
      AttemptsStopAtSuccess(prefix, parse, data);
      var a := Attempts(versions, parse, data);
      if parse(versions[last], data).Failure? {
        var rest := Attempts(prefix, parse, data);
        assert a == [versions[last]] + rest;
        forall k | 0 < k < |a| - 1 ensures parse(a[k], data).Failure? {
          assert a[k] == rest[k - 1];
        }
        if NewestParse(versions, parse, data).Success? {
          assert NewestParse(prefix, parse, data).Success?;
          assert a[|a| - 1] == rest[|rest| - 1];
        }
      }
    }
  }
}
