/** The fairy-json front end (fairyjson/fairy_json.h and fairyjson/fairy_json.cpp):
    a cursor over a NUL-terminated text, the `ws` and `null` productions of
    RFC 8259 (sections 2 and 3), the value dispatcher and the entry point. */
module FairyJson {

  /** The kinds of JSON value (JsonFieldType). */
  datatype JsonFieldType = JNull | JFalse | JTrue | JNumber | JString | JArray | JObject

  /** The outcome of a parse (JsonParseStatus). */
  datatype JsonParseStatus = ParseOk | ParseExpectValue | ParseInvalidValue | ParseRootNotSingular

  /** A parsed value; so far it records only its kind. The C++ member is
      called `type`, a keyword in Dafny. */
  class FairyValue {
    var valueType: JsonFieldType

    constructor (t: JsonFieldType)
      ensures valueType == t
    {
      valueType := t;
    }

    /** Reads the stored kind and changes nothing. */
    method GetType() returns (t: JsonFieldType)
      ensures t == valueType
    {
      t := valueType;
    }
  }

  // ---------------------------------------------------------------------
  // NUL-terminated text

  /** A C string: a character sequence that holds a NUL somewhere. */
  predicate IsCString(s: seq<char>)
  {
    '\0' in s
  }

  /** The index of the first NUL, the logical end of the text. */
  function End(s: seq<char>): (n: nat)
    requires IsCString(s)
    ensures n < |s| && s[n] == '\0'
    ensures forall k :: 0 <= k < n ==> s[k] != '\0'
  {
    if s[0] == '\0' then 0 else 1 + End(s[1..])
  }

  /** The whitespace of RFC 8259 section 2: space, tab, line feed, carriage return. */
  predicate IsWs(ch: char): (b: bool)
    ensures b <==> ch in " \t\n\r"
    ensures b ==> ch != '\0'
  {
    ch == ' ' || ch == '\t' || ch == '\n' || ch == '\r'
  }

  /** The first index at or after `i` that does not hold whitespace. */
  function SkipWs(s: seq<char>, i: nat): (j: nat)
    requires i <= |s|
    ensures i <= j <= |s|
    ensures forall k :: i <= k < j ==> IsWs(s[k])
    ensures j < |s| ==> !IsWs(s[j])
    ensures IsCString(s) && i <= End(s) ==> j <= End(s)
    decreases |s| - i
  {
    if i < |s| && IsWs(s[i]) then SkipWs(s, i + 1) else i
  }

  /** Reference definition: the text with its leading whitespace removed. */
  function TrimStart(s: seq<char>): seq<char>
  {
    if s != [] && IsWs(s[0]) then TrimStart(s[1..]) else s
  }

  /** Skipping by index and trimming the sequence agree. */
  lemma {:induction false} SkipWsIsTrimStart(s: seq<char>, i: nat)
    requires i <= |s|
    ensures s[SkipWs(s, i)..] == TrimStart(s[i..])
    decreases |s| - i
  {
    if i < |s| && IsWs(s[i]) {
      SkipWsIsTrimStart(s, i + 1);
      assert s[i..][1..] == s[i + 1..];
    }
  }

  /** Once every character from `i` up to `k` is whitespace and the one at
      `k` is not, skipping from `i` stops exactly at `k`: a corollary of the
      contract of SkipWs, which pins down a unique stopping index. */
  lemma SkipWsStopsAt(s: seq<char>, i: nat, k: nat)
    requires i <= k < |s|
    requires forall m :: i <= m < k ==> IsWs(s[m])
    requires !IsWs(s[k])
    ensures SkipWs(s, i) == k
  {
  }

  // ---------------------------------------------------------------------
  // Parse context

  /** The parse context: the input text and a cursor into it (the C++
      `const char* json`, here an index). */
  class ParseContext {
    const text: seq<char>
    var json: nat

    /** The cursor never lies beyond the terminating NUL. */
    ghost predicate Valid()
      reads this
    {
      IsCString(text) && json <= End(text)
    }

    constructor (input: seq<char>)
      requires IsCString(input)
      ensures Valid() && text == input && json == 0
    {
      text := input;
      json := 0;
    }

    /** The character `k` places past the cursor (`json[k]` in C++); only
        positions up to the terminating NUL may be read. */
    function Peek(k: nat): (ch: char)
      reads this
      requires Valid() && json + k <= End(text)
      ensures ch == '\0' <==> json + k == End(text)
    {
      text[json + k]
    }

    /** The EXPECT macro: the current character is `ch`, and the cursor
        steps over it. */
    method Expect(ch: char)
      requires Valid() && Peek(0) == ch && ch != '\0'
      modifies this
      ensures Valid() && json == old(json) + 1
    {
      json := json + 1;
    }
  }

  // ---------------------------------------------------------------------
  // Grammar

  /** Advances the cursor over whitespace; no bound but the NUL stops it. */
  method ParseWhitespace(c: ParseContext)
    requires c.Valid()
    modifies c
    ensures c.Valid()
    ensures old(c.json) <= c.json
    ensures forall k :: old(c.json) <= k < c.json ==> IsWs(c.text[k])
    ensures !IsWs(c.text[c.json])
    ensures c.json == SkipWs(c.text, old(c.json))
  {
    var p := c.json;
    while IsWs(c.Peek(p - c.json))
      invariant c.json <= p <= End(c.text)
      invariant forall k :: c.json <= k < p ==> IsWs(c.text[k])
      decreases End(c.text) - p
    {
      p := p + 1;
    }
    SkipWsStopsAt(c.text, c.json, p);
    c.json := p;
  }

  /** The literal `null` starts at index `i`. */
  predicate NullAt(s: seq<char>, i: nat): (b: bool)
    ensures b <==> i + 4 <= |s| && s[i..i + 4] == "null"
  {
    i + 4 <= |s| && s[i] == 'n' && s[i + 1] == 'u' && s[i + 2] == 'l' && s[i + 3] == 'l'
  }

  /** Parses the literal `null` at the cursor, which stands on an 'n'.
      On a mismatch the cursor stays just past the 'n' and `v` is left alone. */
  method ParseNull(c: ParseContext, v: FairyValue) returns (status: JsonParseStatus)
    requires c.Valid() && c.Peek(0) == 'n'
    modifies c, v
    ensures c.Valid()
    ensures status == (if NullAt(c.text, old(c.json)) then ParseOk else ParseInvalidValue)
    ensures status == ParseOk ==> c.json == old(c.json) + 4 && v.valueType == JNull
    ensures status != ParseOk ==> c.json == old(c.json) + 1 && v.valueType == old(v.valueType)
  {
    ghost var i := c.json;
    c.Expect('n');
    if c.Peek(0) != 'u' || c.Peek(1) != 'l' || c.Peek(2) != 'l' {
      return ParseInvalidValue;
    }
    c.json := c.json + 3;
    v.valueType := JNull;
    return ParseOk;
  }

  /** What the dispatcher reports when the cursor stands at `i`. */
  function ValueStatus(s: seq<char>, i: nat): (r: JsonParseStatus)
    requires IsCString(s) && i <= End(s)
    ensures r == ParseOk <==> NullAt(s, i)
    ensures r == ParseExpectValue <==> i == End(s)
    ensures r != ParseRootNotSingular
  {
    if s[i] == 'n' then (if NullAt(s, i) then ParseOk else ParseInvalidValue)
    else if s[i] == '\0' then ParseExpectValue
    else ParseInvalidValue
  }

  /** Dispatches on the current character: 'n' to ParseNull, the NUL to
      "expected a value", anything else to "invalid value". */
  method ParseValue(c: ParseContext, v: FairyValue) returns (status: JsonParseStatus)
    requires c.Valid()
    modifies c, v
    ensures c.Valid()
    ensures status == ValueStatus(c.text, old(c.json))
    ensures status == ParseOk ==> c.json == old(c.json) + 4 && v.valueType == JNull
    ensures status != ParseOk ==> v.valueType == old(v.valueType)
    ensures status != ParseOk ==>
      c.json == old(c.json) + (if c.text[old(c.json)] == 'n' then 1 else 0)
  {
    match c.Peek(0)
    case 'n' =>
      status := ParseNull(c, v);
    case '\0' =>
      status := ParseExpectValue;
    case _ =>
      status := ParseInvalidValue;
  }

  /** What json_parse returns for the text `s`. */
  function ParseResult(s: seq<char>): (r: JsonParseStatus)
    requires IsCString(s)
    ensures r == ParseOk <==> NullAt(s, SkipWs(s, 0))
    ensures r == ParseExpectValue <==> SkipWs(s, 0) == End(s)
    ensures r != ParseRootNotSingular
  {
    ValueStatus(s, SkipWs(s, 0))
  }

  /** The entry point: resets `v` to null, skips leading whitespace and
      parses one value. Trailing content is never looked at. */
  method JsonParse(v: FairyValue, json: seq<char>) returns (status: JsonParseStatus)
    requires IsCString(json)
    modifies v
    ensures v.valueType == JNull
    ensures status == ParseResult(json)
    ensures status != ParseRootNotSingular
  {
    var c := new ParseContext(json);
    v.valueType := JNull;
    ParseWhitespace(c);
    status := ParseValue(c, v);
  }

  // ---------------------------------------------------------------------
  // Properties of the entry point

  /** Success exactly when the text, once its leading whitespace is trimmed,
      starts with `null`. */
  lemma ParseOkIff(s: seq<char>)
    requires IsCString(s)
    ensures ParseResult(s) == ParseOk <==>
      (|TrimStart(s)| >= 4 && TrimStart(s)[..4] == "null")
  {
    var j := SkipWs(s, 0);
    SkipWsIsTrimStart(s, 0);
    assert s[0..] == s;
    var t := TrimStart(s);
    assert t == s[j..];
    assert ParseResult(s) == ParseOk <==> NullAt(s, j);
    if |t| >= 4 {
      assert t[..4] == "null" <==> t[0] == 'n' && t[1] == 'u' && t[2] == 'l' && t[3] == 'l';
    }
  }

  /** "Expected a value" exactly when the text is blank up to its NUL. */
  lemma ParseExpectValueIff(s: seq<char>)
    requires IsCString(s)
    ensures ParseResult(s) == ParseExpectValue <==>
      (forall k :: 0 <= k < End(s) ==> IsWs(s[k]))
  {
    if forall k :: 0 <= k < End(s) ==> IsWs(s[k]) {
      SkipWsStopsAt(s, 0, End(s));
    }
  }

  /** Every other text is an invalid value; in particular "root not
      singular" is never reported. */
  lemma ParseInvalidOtherwise(s: seq<char>)
    requires IsCString(s)
    ensures ParseResult(s) == ParseInvalidValue <==>
      !(|TrimStart(s)| >= 4 && TrimStart(s)[..4] == "null") &&
      !(forall k :: 0 <= k < End(s) ==> IsWs(s[k]))
  {
    ParseOkIff(s);
    ParseExpectValueIff(s);
  }

  /** Whitespace, then `null`, then anything at all still parses: the
      characters after the literal are never inspected. */
  lemma NullThenAnything(ws: seq<char>, rest: seq<char>)
    requires forall k :: 0 <= k < |ws| ==> IsWs(ws[k])
    requires IsCString(rest)
    ensures IsCString(ws + "null" + rest)
    ensures ParseResult(ws + "null" + rest) == ParseOk
  {
    var s := ws + "null" + rest;
    assert s[|ws| + 4..] == rest;
    assert s[|ws|] == 'n';
    SkipWsStopsAt(s, 0, |ws|);
    assert s[|ws|..|ws| + 4] == "null";
  }

  /** "null x" is accepted. */
  lemma NullWithTrailingContent()
    ensures ParseResult("null x\0") == ParseOk
  {
    NullThenAnything([], " x\0");
    assert [] + "null" + " x\0" == "null x\0";
  }

  /** The single test of the repository: a value that starts out false and
      is parsed from "null" reports success and has kind null. */
  method ParseNullClient() returns (status: JsonParseStatus, t: JsonFieldType)
    ensures status == ParseOk && t == JNull
  {
    var v := new FairyValue(JFalse);
    NullThenAnything([], "\0");
    assert [] + "null" + "\0" == "null\0";
    status := JsonParse(v, "null\0");
    t := v.GetType();
  }
}
