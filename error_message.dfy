/**
  `parseError` in src/components/catsplainer.tsx: pull a readable message out
  of a failed request's error text.

  The text is searched with the regular expression `/{"error":(.*)}/gm`; the
  captured group is given to `JSON.parse` and the parsed value's `message`
  property is returned.  Anything that throws on the way makes the function
  return its input unchanged.

  `JSON.parse` is not modelled: it is the parameter `parse`, a partial
  function from text to a JSON value (`None` when it throws).
*/
module ErrorMessage {

  import opened Options

  /** A parsed JSON value. */
  datatype Json =
    | JNull
    | JBool(b: bool)
    | JNumber(n: real)
    | JString(str: string)
    | JArray(items: seq<Json>)
    | JObject(members: map<string, Json>)

  /** What `parseError` returns: a JavaScript value, possibly `undefined`. */
  datatype Message = Undefined | Value(v: Json)

  /** The literal text the pattern starts with. */
  const Opening: string := "{\"error\":"

  /** The characters that `.` does not match. */
  predicate IsLineTerminator(c: char) {
    c == '\n' || c == '\r' || c == '\U{2028}' || c == '\U{2029}'
  }

  /** The opening starts at index `i`. */
  predicate OpensAt(s: string, i: int) {
    0 <= i && i + |Opening| <= |s| && s[i..i + |Opening|] == Opening
  }

  /**
    The pattern matches `s[start..end + 1]`: the opening, then a group of
    characters on one line, then the closing brace at `end`.
  */
  predicate Matches(s: string, start: int, end: int) {
    && OpensAt(s, start)
    && start + |Opening| <= end < |s|
    && s[end] == '}'
    && forall k :: start + |Opening| <= k < end ==> !IsLineTerminator(s[k])
  }

  /** A match, by the index it starts at and the index of its closing brace. */
  datatype Capture = Capture(start: nat, end: nat)

  /** The first line terminator at or after `from`, or the end of the text. */
  function LineEnd(s: string, from: nat): (e: nat)
    requires from <= |s|
    ensures from <= e <= |s|
    ensures e < |s| ==> IsLineTerminator(s[e])
    ensures forall k :: from <= k < e ==> !IsLineTerminator(s[k])
    decreases |s| - from
  {
    if from == |s| || IsLineTerminator(s[from]) then from else LineEnd(s, from + 1)
  }

  /** The last closing brace in `s[lo..hi]`. */
  function LastBrace(s: string, lo: nat, hi: nat): (r: Option<nat>)
    requires lo <= hi <= |s|
    ensures r.Some? ==> lo <= r.value < hi && s[r.value] == '}'
    ensures r.Some? ==> forall k :: r.value < k < hi ==> s[k] != '}'
    ensures r.None? ==> forall k :: lo <= k < hi ==> s[k] != '}'
    decreases hi - lo
  {
    if hi == lo then None
    else if s[hi - 1] == '}' then Some(hi - 1)
    else LastBrace(s, lo, hi - 1)
  }

  /**
    The greedy `(.*)}` tried at `start`: the group runs to the last closing
    brace before the end of the line.
  */
  function CaptureEndAt(s: string, start: nat): (r: Option<nat>)
    ensures r.Some? ==> Matches(s, start, r.value)
    ensures r.Some? ==> forall j :: r.value < j ==> !Matches(s, start, j)
    ensures r.None? ==> forall j :: !Matches(s, start, j)
  {
    if OpensAt(s, start) then
      var e := LineEnd(s, start + |Opening|);
      var r := LastBrace(s, start + |Opening|, e);
      assert forall j :: Matches(s, start, j) ==> j < e;
      r
    else
      None
  }

  /** `exec` from index `from` on: the leftmost start at which the pattern matches. */
  function ExecFrom(s: string, from: nat): (r: Option<Capture>)
    requires from <= |s|
    ensures r.Some? ==> from <= r.value.start && Matches(s, r.value.start, r.value.end)
    ensures r.Some? ==> forall j :: r.value.end < j ==> !Matches(s, r.value.start, j)
    ensures r.Some? ==> forall a, j :: from <= a < r.value.start ==> !Matches(s, a, j)
    ensures r.None? ==> forall a, j :: from <= a ==> !Matches(s, a, j)
    decreases |s| - from
  {
    if from == |s| then None
    else
      match CaptureEndAt(s, from)
      case Some(end) => Some(Capture(from, end))
      case None => ExecFrom(s, from + 1)
  }

  /** `regex.exec(error)` on a fresh regular expression (its `lastIndex` is 0). */
  function Exec(s: string): (r: Option<Capture>)
    ensures r.None? <==> forall a, j :: !Matches(s, a, j)
    ensures r.Some? ==> Matches(s, r.value.start, r.value.end)
    ensures r.Some? ==> forall a, j :: a < r.value.start ==> !Matches(s, a, j)
    ensures r.Some? ==> forall j :: r.value.end < j ==> !Matches(s, r.value.start, j)
  {
    ExecFrom(s, 0)
  }

  /** `m[1]`, the captured group of a match. */
  function Group(s: string, c: Capture): (g: string)
    requires Matches(s, c.start, c.end)
    ensures s[c.start..c.end + 1] == Opening + g + "}"
  {
    assert s[c.start..c.end + 1] == s[c.start..c.start + |Opening|] + s[c.start + |Opening|..c.end] + [s[c.end]];
    s[c.start + |Opening|..c.end]
  }

  /**
    `err.message` on a parsed value: `None` when reading it throws (on `null`),
    the member of an object, and `undefined` for everything else.
  */
  function MessageOf(v: Json): (r: Option<Message>)
    ensures r.None? <==> v.JNull?
    ensures v.JObject? && "message" in v.members ==> r == Some(Value(v.members["message"]))
    ensures !v.JNull? && (!v.JObject? || "message" !in v.members) ==> r == Some(Undefined)
  {
    match v
    case JNull => None
    case JObject(members) => if "message" in members then Some(Value(members["message"])) else Some(Undefined)
    case _ => Some(Undefined)
  }

  /**
    `parseError(error)`.  Without a match, `JSON.parse(undefined)` throws; a
    group that does not parse throws; reading `message` of `null` throws.  In
    all three cases the input comes back unchanged.
  */
  function ParseError(error: string, parse: string -> Option<Json>): (r: Message)
    ensures Exec(error).None? ==> r == Value(JString(error))
    ensures Exec(error).Some? ==>
      var parsed := parse(Group(error, Exec(error).value));
      && (parsed.None? ==> r == Value(JString(error)))
      && (parsed.Some? && MessageOf(parsed.value).None? ==> r == Value(JString(error)))
      && (parsed.Some? && MessageOf(parsed.value).Some? ==> r == MessageOf(parsed.value).value)
  {
    match Exec(error)
    case None => Value(JString(error))
    case Some(c) =>
      match parse(Group(error, c))
      case None => Value(JString(error))
      case Some(v) =>
        match MessageOf(v)
        case None => Value(JString(error))
        case Some(m) => m
  }

  // ---------------------------------------------------------------------------
  // Properties
  // ---------------------------------------------------------------------------

  /** Text that never contains the opening comes back unchanged, whatever the parser. */
  lemma NoOpeningKeepsInput(error: string, parse: string -> Option<Json>)
    requires forall i :: !OpensAt(error, i)
    ensures ParseError(error, parse) == Value(JString(error))
  {
  }

  /** A parsed object with a `message` member yields that member. */
  lemma MessageMemberReturned(error: string, parse: string -> Option<Json>, c: Capture, members: map<string, Json>)
    requires Matches(error, c.start, c.end)
    requires forall a, j :: a < c.start ==> !Matches(error, a, j)
    requires forall j :: c.end < j ==> !Matches(error, c.start, j)
    requires parse(error[c.start + |Opening|..c.end]) == Some(JObject(members))
    requires "message" in members
    ensures ParseError(error, parse) == Value(members["message"])
  {
    var r := Exec(error);
    assert r.Some?;
    assert !(r.value.start < c.start) && !(c.start < r.value.start);
    assert r.value.end == c.end;
  }

  /** The documented error text, `{"error":{"message":"quota exceeded"}}`, and the group in it. */
  const QuotaGroup: string := "{\"message\":\"quota exceeded\"}"
  const QuotaError: string := Opening + QuotaGroup + "}"

  /** The documented example: the message member of the group comes back. */
  lemma QuotaExceededExample(parse: string -> Option<Json>)
    requires parse(QuotaGroup) == Some(JObject(map["message" := JString("quota exceeded")]))
    ensures ParseError(QuotaError, parse) == Value(JString("quota exceeded"))
  {
    var end := |Opening| + |QuotaGroup|;
    assert Matches(QuotaError, 0, end) && (forall j :: end < j ==> !Matches(QuotaError, 0, j))
      && QuotaError[|Opening|..end] == QuotaGroup by {
      assert forall k :: 0 <= k < |QuotaGroup| ==> !IsLineTerminator(QuotaGroup[k]);
      SpansWholeLine(QuotaGroup, "");
      assert QuotaError == Opening + QuotaGroup + "}" + "";
    }
    MessageMemberReturned(QuotaError, parse, Capture(0, end), map["message" := JString("quota exceeded")]);
  }

  /**
    When the text is the opening, a group on one line, a closing brace and
    then a new line, the pattern matches from the start and its group is
    exactly that group.
  */
  lemma SpansWholeLine(group: string, rest: string)
    requires forall k :: 0 <= k < |group| ==> !IsLineTerminator(group[k])
    requires rest != [] ==> IsLineTerminator(rest[0])
    ensures var s := Opening + group + "}" + rest;
      var end := |Opening| + |group|;
      && Matches(s, 0, end)
      && (forall j :: end < j ==> !Matches(s, 0, j))
      && s[|Opening|..end] == group
  {
    var s := Opening + group + "}" + rest;
    var end := |Opening| + |group|;
    assert s[..|Opening|] == Opening;
    assert s[|Opening|..end] == group;
    assert s[end] == '}';
    forall k | |Opening| <= k < end
      ensures !IsLineTerminator(s[k])
    {
      assert s[k] == group[k - |Opening|];
    }
    assert rest != [] ==> s[end + 1] == rest[0];
  }

  /** Text without the pattern comes back unchanged. */
  lemma PlainFailureExample(parse: string -> Option<Json>)
    ensures ParseError("plain failure string", parse) == Value(JString("plain failure string"))
  {
    var s := "plain failure string";
    forall i
      ensures !OpensAt(s, i)
    {
      if 0 <= i && i + |Opening| <= |s| {
        assert s[i..i + |Opening|][0] == s[i] != '{';
      }
    }
    NoOpeningKeepsInput(s, parse);
  }

  /** A group that parses to something other than an object with `message` yields `undefined`, not the input. */
  lemma NumberGroupYieldsUndefinedExample(parse: string -> Option<Json>)
    requires parse("5") == Some(JNumber(5.0))
    ensures ParseError(Opening + "5" + "}", parse) == Undefined
  {
    SpansWholeLine("5", "");
    assert Opening + "5" + "}" + "" == Opening + "5" + "}";
  }

  /** The group stops at the last brace of its line: a brace on a later line is not taken. */
  lemma GroupStaysOnOneLineExample()
    ensures var s := Opening + "{\"message\":\"m\"}" + "}" + "\n}";
      Exec(s).Some? && Group(s, Exec(s).value) == "{\"message\":\"m\"}"
  {
    var group := "{\"message\":\"m\"}";
    var s := Opening + group + "}" + "\n}";
    SpansWholeLine(group, "\n}");
    var r := Exec(s).value;
    assert r.start == 0 && r.end == |Opening| + |group|;
  }
}
