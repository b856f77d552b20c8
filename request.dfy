/**
 * Request helpers (internal/lib/api/request): the reflective "all fields
 * empty" test used to refuse empty update bodies, and the extraction of the
 * bearer token from an `Authorization` header.
 */
module Request {
  import opened Wrappers

  // ----- IsStructEmpty -----

  /**
   * A Go value as reflection sees it: a struct with its fields in
   * declaration order, a pointer (nil or pointing at a value), or any other
   * kind, of which only "is it its type's zero value" matters here.
   */
  datatype Value = Struct(fields: seq<Value>) | Pointer(target: Option<Value>) | Scalar(isZeroValue: bool)

  /** `reflect.Value.IsZero`: a struct is zero when all its fields are. */
  predicate IsZero(v: Value)
    decreases v
  {
    match v
    case Struct(fields) => forall i :: 0 <= i < |fields| ==> IsZero(fields[i])
    case Pointer(target) => target.None?
    case Scalar(z) => z
  }

  /**
   * The value after one dereference: `reflect.ValueOf(obj)`, then `Elem()` if
   * it is a pointer. `None` stands for the invalid value reflection gives for
   * a nil interface or the target of a nil pointer.
   */
  function Deref(obj: Option<Value>): Option<Value> {
    if obj.Some? && obj.value.Pointer? then obj.value.target else obj
  }

  const NotAStruct: string := "expected a struct type"

  /**
   * Reports whether every field of the struct `obj` holds (or points to)
   * nothing. `obj` is the `interface{}` argument, `None` when it is nil.
   */
  method IsStructEmpty(obj: Option<Value>) returns (empty: bool, err: Option<string>)
    ensures err.None? <==> Deref(obj).Some? && Deref(obj).value.Struct?
    ensures err.Some? ==> !empty && err.value == NotAStruct
    ensures err.None? ==> (empty <==> IsZero(Deref(obj).value))
  {
    var val := Deref(obj);
    if val.None? || !val.value.Struct? {
      return false, Some(NotAStruct);
    }
    var fields := val.value.fields;
    var i := 0;
    while i < |fields|
      invariant 0 <= i <= |fields|
      invariant forall j :: 0 <= j < i ==> IsZero(fields[j])
    {
      var field := fields[i];
      if field.Pointer? && field.target.Some? {
        return false, None;
      }
      if !IsZero(field) {
        return false, None;
      }
      i := i + 1;
    }
    return true, None;
  }

  // ----- GetAuthToken -----

  /** `strings.Split(s, " ")`: the pieces between single spaces, empty ones included. */
  function Split(s: string): (parts: seq<string>)
    ensures |parts| >= 1
  {
    if s == [] then [""]
    else
      var rest := Split(s[1..]);
      if s[0] == ' ' then [""] + rest else [[s[0]] + rest[0]] + rest[1..]
  }

  /** `strings.Join(parts, " ")`. */
  function Join(parts: seq<string>): string
    requires |parts| >= 1
  {
    if |parts| == 1 then parts[0] else parts[0] + " " + Join(parts[1..])
  }

  predicate SpaceFree(s: string) {
    ' ' !in s
  }

  /** Splitting loses nothing: joining the pieces gives the string back, and no piece holds a space. */
  lemma {:induction false} SplitJoin(s: string)
    ensures Join(Split(s)) == s
    ensures forall k :: 0 <= k < |Split(s)| ==> SpaceFree(Split(s)[k])
  {
    if s != [] {
      var rest := Split(s[1..]);
      SplitJoin(s[1..]);
      assert s == [s[0]] + s[1..];
      if s[0] != ' ' {
        var parts := Split(s);
        assert parts[0] == [s[0]] + rest[0];
        assert parts[1..] == rest[1..];
        assert forall k :: 1 <= k < |parts| ==> parts[k] == rest[k];
        if |rest| > 1 {
          assert Join(rest) == rest[0] + " " + Join(rest[1..]);
        }
      } else {
        assert Split(s)[1..] == rest;
      }
    }
  }

  /** A space-free piece followed by a space splits off as the first piece. */
  lemma {:induction false} SplitAfterPiece(p: string, rest: string)
    requires SpaceFree(p)
    ensures Split(p + " " + rest) == [p] + Split(rest)
  {
    if p == [] {
      assert p + " " + rest == [' '] + rest;
      assert (p + " " + rest)[1..] == rest;
    } else {
      var s := p + " " + rest;
      assert s[0] == p[0] && s[1..] == p[1..] + " " + rest;
      SplitAfterPiece(p[1..], rest);
      assert [p[0]] + p[1..] == p;
    }
  }

  /** A space-free string is a single piece. */
  lemma {:induction false} SplitSpaceFree(p: string)
    requires SpaceFree(p)
    ensures Split(p) == [p]
  {
    if p != [] {
      SplitSpaceFree(p[1..]);
      assert [p[0]] + p[1..] == p;
    }
  }

  const MissingHeader: string := "missing Authorization header"
  const InvalidHeader: string := "invalid Authorization header"

  /**
   * The token of an `Authorization` header value (`r.Header.Get`, so the
   * empty string when the header is absent). Succeeds exactly on
   * `"Bearer " + t` with `t` free of spaces, and then yields `t`.
   */
  function GetAuthToken(authHeader: string): (r: Result<string, string>)
    ensures r.Ok? ==> authHeader == "Bearer " + r.value && SpaceFree(r.value)
    ensures r.Err? ==> r.error == (if authHeader == "" then MissingHeader else InvalidHeader)
  {
    if authHeader == "" then Err(MissingHeader)
    else
      var tokenParts := Split(authHeader);
      if |tokenParts| != 2 || tokenParts[0] != "Bearer" then Err(InvalidHeader)
      else
        SplitJoin(authHeader);
        Ok(tokenParts[1])
  }

  /** Every space-free token, the empty one included, is read back from its header. */
  lemma GetAuthTokenRoundTrip(token: string)
    requires SpaceFree(token)
    ensures GetAuthToken("Bearer " + token) == Ok(token)
  {
    assert "Bearer" + " " + token == "Bearer " + token;
    SplitAfterPiece("Bearer", token);
    SplitSpaceFree(token);
  }
}
