/** The bounded recursive-descent parser of CCC documents. */
module CccParser {
  import opened Wire
  import opened Errors
  import opened Ccc
  import Utf8

  const MAX_INPUT_LEN: nat := 1_048_576
  const MAX_DEPTH: nat := 64

  predicate IsSpace(c: char) {
    c == ' ' || c == '\t' || c == '\r' || c == '\n'
  }

  /** A bare token stops in front of these. */
  predicate IsDelimiter(c: char) {
    IsSpace(c) || c == '(' || c == ')'
  }

  // ---------------------------------------------------------------------------
  // The parser as functions on the text that is still ahead
  // ---------------------------------------------------------------------------

  function SkipSpace(s: string): (rest: string)
    ensures |rest| <= |s|
    ensures rest != "" ==> !IsSpace(rest[0])
  {
    if s != "" && IsSpace(s[0]) then SkipSpace(s[1..]) else s
  }

  datatype Token = Token(text: string, rest: string)

  /** The part of `s` up to and including the next quote. */
  function ThroughQuote(s: string): (t: Token)
    ensures |t.text| + |t.rest| == |s|
    ensures t.text != "" ==> t.text[0] == s[0]
  {
    if s == "" then Token("", "")
    else if s[0] == '"' then Token([s[0]], s[1..])
    else
      var t := ThroughQuote(s[1..]);
      Token([s[0]] + t.text, t.rest)
  }

  function BareToken(s: string): (t: Token)
    ensures |t.text| + |t.rest| == |s|
    ensures t.text != "" ==> t.text[0] == s[0]
  {
    if s == "" || IsDelimiter(s[0]) then Token("", s)
    else
      var t := BareToken(s[1..]);
      Token([s[0]] + t.text, t.rest)
  }

  /** A quoted token keeps its quotes; anything else runs to the next delimiter. */
  function ReadToken(s: string): (t: Token)
    ensures |t.text| + |t.rest| == |s|
    ensures t.text != "" ==> t.text[0] == s[0]
  {
    if s != "" && s[0] == '"' then
      var t := ThroughQuote(s[1..]);
      Token([s[0]] + t.text, t.rest)
    else BareToken(s)
  }

  datatype Parsed<+T> = Parsed(value: T, rest: string) | Rejected

  function ParseValue(s: string, depth: nat): (r: Parsed<Value>)
    ensures r.Parsed? ==> |r.rest| < |s|
    decreases |s|, 1
  {
    if depth >= MAX_DEPTH || s == "" || s[0] != '(' then Rejected
    else ParseBody(SkipSpace(s[1..]), depth)
  }

  /** What follows the opening parenthesis and the space behind it. */
  function ParseBody(body: string, depth: nat): (r: Parsed<Value>)
    ensures r.Parsed? ==> |r.rest| < |body|
    decreases |body|, 5
  {
    if body == "" then Rejected
    else if body[0] == ')' then Parsed(Empty, body[1..])
    else if body[0] == ':' then AsNode(None, ParseFields(body, depth + 1))
    else
      var t := ReadToken(body);
      if t.text == "" then Rejected else ParseBehindToken(t.text, SkipSpace(t.rest), depth)
  }

  /** A token alone is an atom; a token in front of fields names a node. */
  function ParseBehindToken(token: string, after: string, depth: nat): (r: Parsed<Value>)
    ensures r.Parsed? ==> |r.rest| < |after|
    decreases |after|, 4
  {
    if after != "" && after[0] == ')' then Parsed(Atom(token), after[1..])
    else AsNode(Some(token), ParseFields(after, depth + 1))
  }

  function AsNode(name: Option<string>, r: Parsed<seq<Field>>): Parsed<Value> {
    if r.Parsed? then Parsed(Node(name, r.value), r.rest) else Rejected
  }

  /** One `:key value`, from its colon on. */
  function ParseField(s: string, depth: nat): (r: Parsed<Field>)
    requires s != ""
    ensures r.Parsed? ==> |r.rest| < |s|
    decreases |s|, 2
  {
    var t := ReadToken(SkipSpace(s[1..]));
    AsField(t.text, ParseValue(SkipSpace(t.rest), depth))
  }

  function AsField(key: string, r: Parsed<Value>): Parsed<Field> {
    if r.Parsed? then Parsed(Field(key, r.value), r.rest) else Rejected
  }

  function Prepend(fields: seq<Field>, r: Parsed<seq<Field>>): Parsed<seq<Field>> {
    if r.Parsed? then Parsed(fields + r.value, r.rest) else Rejected
  }

  lemma PrependTwice(a: seq<Field>, b: seq<Field>, r: Parsed<seq<Field>>)
    ensures Prepend(a, Prepend(b, r)) == Prepend(a + b, r)
    ensures Prepend([], r) == r
  {
    if r.Parsed? {
      assert a + (b + r.value) == a + b + r.value;
      assert [] + r.value == r.value;
    }
  }

  function ParseFields(s: string, depth: nat): (r: Parsed<seq<Field>>)
    ensures r.Parsed? ==> |r.rest| < |s|
    decreases |s|, 3
  {
    var here := SkipSpace(s);
    if here == "" then Rejected
    else if here[0] == ')' then Parsed([], here[1..])
    else if here[0] != ':' then Rejected
    else
      match ParseField(here, depth)
      case Rejected => Rejected
      case Parsed(field, rest) => Prepend([field], ParseFields(rest, depth))
  }

  predicate IsNamed(v: Value) {
    v.Node? && v.name.Some?
  }

  /** `ccc::parse`: one named node, nothing but white space around it. */
  function Parse(input: string): Result<Value, VpnError> {
    if Utf8.Len(input) > MAX_INPUT_LEN then Err(Protocol(FrameTooLong))
    else
      match ParseValue(SkipSpace(input), 0)
      case Rejected => Err(Protocol(MalformedDocument))
      case Parsed(v, rest) =>
        if SkipSpace(rest) == "" && IsNamed(v) then Ok(v) else Err(Protocol(MalformedDocument))
  }

  // ---------------------------------------------------------------------------
  // The parser as the source writes it: a position that moves over the characters
  // ---------------------------------------------------------------------------

  class Parser {
    const chars: string
    var pos: nat

    ghost predicate Valid()
      reads this
    {
      pos <= |chars|
    }

    ghost function Ahead(): string
      requires Valid()
      reads this
    {
      chars[pos..]
    }

    constructor (chars: string)
      ensures Valid() && this.chars == chars && Ahead() == chars
    {
      this.chars := chars;
      pos := 0;
    }

    function Peek(): (c: Option<char>)
      requires Valid()
      reads this
      ensures c == if Ahead() == "" then None else Some(Ahead()[0])
    {
      if pos < |chars| then Some(chars[pos]) else None
    }

    /** `self.pos += 1`. */
    method Bump()
      requires Valid() && Ahead() != ""
      modifies this
      ensures Valid() && pos == old(pos) + 1
      ensures Ahead() == old(Ahead())[1..]
    {
      pos := pos + 1;
    }

    method SkipWs()
      requires Valid()
      modifies this
      ensures Valid() && pos >= old(pos)
      ensures Ahead() == SkipSpace(old(Ahead()))
    {
      while Peek().Some? && IsSpace(Peek().value)
        invariant Valid() && pos >= old(pos)
        invariant SkipSpace(Ahead()) == SkipSpace(old(Ahead()))
        decreases |chars| - pos
      {
        Bump();
      }
    }

    method ReadTokenHere() returns (token: string)
      requires Valid()
      modifies this
      ensures Valid() && pos >= old(pos)
      ensures Token(token, Ahead()) == ReadToken(old(Ahead()))
    {
      if Peek() == Some('"') {
        Bump();
        var quoted := ReadQuoted();
        return ['"'] + quoted;
      }
      token := "";
      while Peek().Some?
        invariant Valid() && pos >= old(pos)
        invariant Behind(token, BareToken(Ahead())) == BareToken(old(Ahead()))
        decreases |chars| - pos
      {
        var c := Peek().value;
        if IsDelimiter(c) {
          break;
        }
        Bump();
        BehindTwice(token, c, BareToken(Ahead()));
        token := token + [c];
      }
    }

    /** The rest of a quoted token, its opening quote already consumed. */
    method ReadQuoted() returns (token: string)
      requires Valid()
      modifies this
      ensures Valid() && pos >= old(pos)
      ensures Token(token, Ahead()) == ThroughQuote(old(Ahead()))
    {
      token := "";
      while Peek().Some?
        invariant Valid() && pos >= old(pos)
        invariant Behind(token, ThroughQuote(Ahead())) == ThroughQuote(old(Ahead()))
        decreases |chars| - pos
      {
        var c := Peek().value;
        Bump();
        if c == '"' {
          return token + [c];
        }
        BehindTwice(token, c, ThroughQuote(Ahead()));
        token := token + [c];
      }
    }

    /** Rejects exactly where the function does; otherwise leaves the position behind the value. */
    method ParseValueHere(depth: nat) returns (r: Option<Value>)
      requires Valid()
      modifies this
      ensures Valid() && pos >= old(pos)
      ensures Agrees(r, Ahead(), ParseValue(old(Ahead()), depth))
      decreases |chars| - pos, 1
    {
      if depth >= MAX_DEPTH || Peek() != Some('(') {
        return None;
      }
      Bump();
      SkipWs();
      r := ParseBodyHere(depth);
    }

    method ParseBodyHere(depth: nat) returns (r: Option<Value>)
      requires Valid()
      modifies this
      ensures Valid() && pos >= old(pos)
      ensures Agrees(r, Ahead(), ParseBody(old(Ahead()), depth))
      decreases |chars| - pos, 5
    {
      if Peek().None? {
        return None;
      }
      if Peek() == Some(')') {
        Bump();
        return Some(Empty);
      }
      if Peek() == Some(':') {
        var fields := ParseFieldsHere(depth + 1);
        return if fields.Some? then Some(Node(None, fields.value)) else None;
      }
      var token := ReadTokenHere();
      if token == "" {
        return None;
      }
      SkipWs();
      r := ParseBehindTokenHere(token, depth);
    }

    method ParseBehindTokenHere(token: string, depth: nat) returns (r: Option<Value>)
      requires Valid()
      modifies this
      ensures Valid() && pos >= old(pos)
      ensures Agrees(r, Ahead(), ParseBehindToken(token, old(Ahead()), depth))
      decreases |chars| - pos, 4
    {
      if Peek() == Some(')') {
        Bump();
        return Some(Atom(token));
      }
      var fields := ParseFieldsHere(depth + 1);
      r := if fields.Some? then Some(Node(Some(token), fields.value)) else None;
    }

    method ParseFieldsHere(depth: nat) returns (r: Option<seq<Field>>)
      requires Valid()
      modifies this
      ensures Valid() && pos >= old(pos)
      ensures Agrees(r, Ahead(), ParseFields(old(Ahead()), depth))
      decreases |chars| - pos, 2
    {
      var fields: seq<Field> := [];
      ghost var spec := ParseFields(Ahead(), depth);
      PrependTwice([], [], spec);
      while true
        invariant Valid() && pos >= old(pos)
        invariant Prepend(fields, ParseFields(Ahead(), depth)) == spec
        decreases |chars| - pos
      {
        SkipWs();
        if Peek().None? {
          return None;
        }
        if Peek().value == ')' {
          Bump();
          assert fields + [] == fields;
          return Some(fields);
        }
        if Peek().value != ':' {
          return None;
        }
        ghost var here := Ahead();
        var field := ParseFieldHere(depth);
        if field.None? {
          return None;
        }
        assert ParseFields(here, depth) == Prepend([field.value], ParseFields(Ahead(), depth));
        PrependTwice(fields, [field.value], ParseFields(Ahead(), depth));
        fields := fields + [field.value];
      }
    }

    /** The body of the source's loop for one `:key value`. */
    method ParseFieldHere(depth: nat) returns (r: Option<Field>)
      requires Valid() && Ahead() != ""
      modifies this
      ensures Valid() && pos > old(pos)
      ensures Agrees(r, Ahead(), ParseField(old(Ahead()), depth))
      decreases |chars| - pos, 0
    {
      Bump();
      SkipWs();
      var key := ReadTokenHere();
      SkipWs();
      var value := ParseValueHere(depth);
      r := if value.Some? then Some(Field(key, value.value)) else None;
    }
  }

  ghost predicate Agrees<T>(r: Option<T>, ahead: string, spec: Parsed<T>) {
    if r.Some? then spec == Parsed(r.value, ahead) else spec.Rejected?
  }

  function Behind(prefix: string, t: Token): Token {
    Token(prefix + t.text, t.rest)
  }

  lemma BehindTwice(prefix: string, c: char, t: Token)
    ensures Behind(prefix, Token([c] + t.text, t.rest)) == Behind(prefix + [c], t)
  {
    assert prefix + ([c] + t.text) == prefix + [c] + t.text;
  }

  method ParseDocument(input: string) returns (r: Result<Value, VpnError>)
    ensures r == Parse(input)
  {
    if Utf8.Len(input) > MAX_INPUT_LEN {
      return Err(Protocol(FrameTooLong));
    }
    var p := new Parser(input);
    p.SkipWs();
    ghost var spec := ParseValue(p.Ahead(), 0);
    var value := p.ParseValueHere(0);
    if value.None? {
      return Err(Protocol(MalformedDocument));
    }
    assert spec == Parsed(value.value, p.Ahead());
    p.SkipWs();
    if p.pos != |p.chars| || !IsNamed(value.value) {
      return Err(Protocol(MalformedDocument));
    }
    return Ok(value.value);
  }
}
