/** Exactly which CCC trees survive `parse(to_wire(x))`, and why every parsed tree does. */
module CccRoundTrip {
  import opened Wire
  import opened Ccc
  import opened CccParser
  import Utf8

  predicate LegalBare(t: string) {
    t != "" && t[0] != '"' && NoDelimiter(t)
  }

  predicate LegalQuoted(t: string) {
    && |t| >= 2 && t[0] == '"' && t[|t| - 1] == '"'
    && forall i :: 0 < i < |t| - 1 ==> t[i] != '"'
  }

  predicate LegalToken(t: string) {
    LegalBare(t) || LegalQuoted(t)
  }

  /** An atom or a node name: a leading colon would start a field instead. */
  predicate LegalHead(t: string) {
    LegalToken(t) && t[0] != ':'
  }

  /** A field key; the empty key marks an array element. */
  predicate LegalKey(t: string) {
    t == "" || LegalToken(t)
  }

  predicate WellFormed(v: Value)
    decreases v, 1
  {
    match v
    case Empty => true
    case Atom(t) => LegalHead(t)
    case Node(name, fields) => fields != [] && (name.Some? ==> LegalHead(name.value)) && WellFormedFields(fields)
  }

  predicate WellFormedFields(fields: seq<Field>)
    decreases fields, 0
  {
    fields == [] ||
    (LegalKey(fields[0].key) && WellFormed(fields[0].value) && WellFormedFields(fields[1..]))
  }

  /** Levels of parentheses. */
  function Depth(v: Value): (r: nat)
    ensures r >= 1
    decreases v, 1
  {
    if v.Node? then 1 + FieldsDepth(v.fields) else 1
  }

  function FieldsDepth(fields: seq<Field>): nat
    decreases fields, 0
  {
    if fields == [] then 0
    else
      var here, later := Depth(fields[0].value), FieldsDepth(fields[1..]);
      if here > later then here else later
  }

  /** A condition on the tree alone, checkable before it is serialized. */
  predicate Printable(v: Value) {
    IsNamed(v) && WellFormed(v) && Depth(v) <= MAX_DEPTH && Utf8.Len(ToWire(v)) <= MAX_INPUT_LEN
  }

  // ---------------------------------------------------------------------------
  // Space and tokens
  // ---------------------------------------------------------------------------

  lemma {:induction false} SkipLeadingSpace(w: string, t: string)
    requires forall i :: 0 <= i < |w| ==> IsSpace(w[i])
    ensures SkipSpace(w + t) == SkipSpace(t)
  {
    if w == "" {
      assert w + t == t;
    } else {
      assert (w + t)[1..] == w[1..] + t;
      SkipLeadingSpace(w[1..], t);
    }
  }

  lemma {:induction false} BareTokenBack(t: string, rest: string)
    requires NoDelimiter(t)
    requires rest != "" && IsDelimiter(rest[0])
    ensures BareToken(t + rest) == Token(t, rest)
  {
    if t == "" {
      assert t + rest == rest;
    } else {
      assert (t + rest)[1..] == t[1..] + rest;
      BareTokenBack(t[1..], rest);
    }
  }

  lemma {:induction false} QuoteBack(t: string, rest: string)
    requires t != "" && t[|t| - 1] == '"'
    requires forall i :: 0 <= i < |t| - 1 ==> t[i] != '"'
    ensures ThroughQuote(t + rest) == Token(t, rest)
  {
    assert (t + rest)[1..] == t[1..] + rest;
    if t[0] != '"' {
      QuoteBack(t[1..], rest);
    } else {
      assert |t| == 1;
      assert t[1..] + rest == rest && [t[0]] == t;
    }
  }

  predicate NoDelimiter(t: string) {
    forall i :: 0 <= i < |t| ==> !IsDelimiter(t[i])
  }

  lemma NonQuotedToken(s: string)
    requires s != "" && s[0] != '"'
    ensures ReadToken(s) == BareToken(s)
  {
  }

  lemma TokenBack(t: string, rest: string)
    requires LegalKey(t)
    requires rest != "" && IsDelimiter(rest[0])
    ensures ReadToken(t + rest) == Token(t, rest)
  {
    var s := t + rest;
    if t == "" {
      assert s == rest;
      NonQuotedToken(rest);
    } else if t[0] == '"' {
      assert s[1..] == t[1..] + rest && s[0] == '"';
      QuoteBack(t[1..], rest);
      assert ReadToken(s).text == [t[0]] + t[1..] == t;
    } else {
      BareTokenBack(t, rest);
      assert s[0] == t[0];
      NonQuotedToken(s);
    }
  }

  lemma {:induction false} BareTokenIsLegal(s: string)
    ensures NoDelimiter(BareToken(s).text)
  {
    if s != "" && !IsDelimiter(s[0]) {
      BareTokenIsLegal(s[1..]);
      var t, u := BareToken(s).text, BareToken(s[1..]).text;
      forall i | 0 <= i < |t|
        ensures !IsDelimiter(t[i])
      {
        if i > 0 {
          assert t[i] == u[i - 1];
        }
      }
    }
  }

  lemma {:induction false} QuoteIsLegal(s: string)
    requires ThroughQuote(s).rest != ""
    ensures var t := ThroughQuote(s).text;
      t != "" && t[|t| - 1] == '"' && forall i :: 0 <= i < |t| - 1 ==> t[i] != '"'
  {
    if s[0] != '"' {
      QuoteIsLegal(s[1..]);
    }
  }

  /** A token with text behind it is legal: only an unterminated quote is not, and that runs to the end. */
  lemma TokenIsLegal(s: string)
    requires ReadToken(s).rest != ""
    ensures LegalKey(ReadToken(s).text)
  {
    if s[0] == '"' {
      QuoteIsLegal(s[1..]);
      var t, u := ReadToken(s).text, ThroughQuote(s[1..]).text;
      assert t == ['"'] + u;
      assert t[|t| - 1] == u[|u| - 1];
      assert forall i :: 0 < i < |t| - 1 ==> t[i] == u[i - 1];
      assert LegalQuoted(t);
    } else {
      NonQuotedToken(s);
      BareTokenIsLegal(s);
    }
  }

  // ---------------------------------------------------------------------------
  // Parsing what was printed
  // ---------------------------------------------------------------------------

  lemma FieldsFromSpace(s: string, depth: nat)
    ensures ParseFields(SkipSpace(s), depth) == ParseFields(s, depth)
  {
    assert SkipSpace(SkipSpace(s)) == SkipSpace(s);
  }

  lemma OpenValue(body: string, depth: nat)
    requires depth < MAX_DEPTH
    ensures ParseValue("(" + body, depth) == ParseBody(SkipSpace(body), depth)
  {
    assert ("(" + body)[1..] == body;
  }

  lemma TokenInBody(token: string, after: string, depth: nat)
    requires LegalHead(token) && after != "" && IsDelimiter(after[0])
    ensures ParseBody(SkipSpace(token + after), depth) == ParseBehindToken(token, SkipSpace(after), depth)
  {
    var body := token + after;
    assert body[0] == token[0];
    assert SkipSpace(body) == body by {
      assert !IsDelimiter(token[0]);
    }
    TokenBack(token, after);
  }

  /** `: key value` with one space on either side of an empty key or behind a key. */
  lemma OpenField(key: string, printed: string, depth: nat)
    requires LegalKey(key) && printed != "" && printed[0] == '('
    ensures ParseField(":" + (key + (" " + printed)), depth) == AsField(key, ParseValue(printed, depth))
  {
    var tail := key + (" " + printed);
    assert (":" + tail)[1..] == tail;
    SkipLeadingSpace(" ", printed);
    if key == "" {
      assert tail == " " + printed;
      assert ReadToken(printed) == Token("", printed);
    } else {
      assert tail[0] == key[0] && !IsDelimiter(key[0]);
      TokenBack(key, " " + printed);
    }
  }

  // The serializer with the text that follows as an argument: no concatenation to re-associate.

  function TextThen(v: Value, d: nat, rest: string): string
    decreases v, 1
  {
    match v
    case Empty => "(" + (")" + rest)
    case Atom(t) => "(" + (t + (")" + rest))
    case Node(name, fields) =>
      "(" + (NameText(name) + ("\n" + FieldsThen(fields, d + 1, Tabs(d) + (")" + rest))))
  }

  function FieldsThen(fields: seq<Field>, d: nat, tail: string): string
    decreases fields, 0
  {
    if fields == [] then tail else Tabs(d) + FromColon(fields, d, tail)
  }

  function FromColon(fields: seq<Field>, d: nat, tail: string): string
    requires fields != []
    decreases fields, 0, 0
  {
    ":" + (fields[0].key + (" " + TextThen(fields[0].value, d, "\n" + FieldsThen(fields[1..], d, tail))))
  }

  lemma Append2(a: string, b: string, c: string)
    ensures (a + b) + c == a + (b + c)
  {
  }

  lemma Append5(a: string, b: string, c: string, d: string, e: string, rest: string)
    ensures (a + b + c + d + e) + rest == a + (b + (c + (d + (e + rest))))
  {
    Append2(a + b + c + d, e, rest);
    Append2(a + b + c, d, e + rest);
    Append2(a + b, c, d + (e + rest));
    Append2(a, b, c + (d + (e + rest)));
  }

  lemma {:induction false} TextThenIsText(v: Value, d: nat, rest: string)
    ensures TextThen(v, d, rest) == Text(v, d) + rest
    decreases v, 1
  {
    match v {
      case Empty =>
        assert "()" == "(" + ")";
        Append2("(", ")", rest);
      case Atom(t) =>
        Append2("(" + t, ")", rest);
        Append2("(", t, ")" + rest);
      case Node(name, fields) =>
        FieldsThenIsText(fields, d + 1, Tabs(d) + (")" + rest));
        Append2("(" + NameText(name) + "\n" + FieldsText(fields, d + 1) + Tabs(d), ")", rest);
        Append2("(" + NameText(name) + "\n" + FieldsText(fields, d + 1), Tabs(d), ")" + rest);
        Append2("(" + NameText(name) + "\n", FieldsText(fields, d + 1), Tabs(d) + (")" + rest));
        Append2("(" + NameText(name), "\n", FieldsText(fields, d + 1) + (Tabs(d) + (")" + rest)));
        Append2("(", NameText(name), "\n" + (FieldsText(fields, d + 1) + (Tabs(d) + (")" + rest))));
    }
  }

  lemma {:induction false} FieldsThenIsText(fields: seq<Field>, d: nat, tail: string)
    ensures FieldsThen(fields, d, tail) == FieldsText(fields, d) + tail
    decreases fields, 0
  {
    if fields == [] {
      assert "" + tail == tail;
    } else {
      var f, more := fields[0], FieldsText(fields[1..], d);
      FieldsThenIsText(fields[1..], d, tail);
      TextThenIsText(f.value, d, "\n" + (more + tail));
      Append2(FieldText(f, d), more, tail);
      Append2(Tabs(d) + ":" + f.key + " " + Text(f.value, d), "\n", more + tail);
      Append5(Tabs(d), ":", f.key, " ", Text(f.value, d), "\n" + (more + tail));
    }
  }

  lemma FieldsThenFromColon(fields: seq<Field>, d: nat, tail: string)
    requires fields != []
    ensures SkipSpace(FieldsThen(fields, d, tail)) == FromColon(fields, d, tail)
    ensures FromColon(fields, d, tail)[0] == ':'
  {
    SkipLeadingSpace(Tabs(d), FromColon(fields, d, tail));
  }

  lemma {:induction false} ParseFieldsBack(fields: seq<Field>, d: nat, depth: nat, tail: string, rest: string)
    requires WellFormedFields(fields) && depth + FieldsDepth(fields) <= MAX_DEPTH
    requires SkipSpace(tail) == ")" + rest
    ensures ParseFields(FieldsThen(fields, d, tail), depth) == Parsed(fields, rest)
    decreases fields, 0
  {
    if fields == [] {
      assert (")" + rest)[1..] == rest;
    } else {
      var behind := FieldsThen(fields[1..], d, tail);
      FieldsThenFromColon(fields, d, tail);
      ParseFieldBack(fields, d, depth, tail);
      SkipLeadingSpace("\n", behind);
      FieldsFromSpace(behind, depth);
      FieldsFromSpace("\n" + behind, depth);
      ParseFieldsBack(fields[1..], d, depth, tail, rest);
      assert [fields[0]] + fields[1..] == fields;
    }
  }

  lemma {:induction false} ParseFieldBack(fields: seq<Field>, d: nat, depth: nat, tail: string)
    requires fields != []
    requires LegalKey(fields[0].key) && WellFormed(fields[0].value) && depth + Depth(fields[0].value) <= MAX_DEPTH
    ensures ParseField(FromColon(fields, d, tail), depth)
         == Parsed(fields[0], "\n" + FieldsThen(fields[1..], d, tail))
    decreases fields, 0, 0
  {
    var f, behind := fields[0], "\n" + FieldsThen(fields[1..], d, tail);
    ParseValueBack(f.value, d, depth, behind);
    OpenField(f.key, TextThen(f.value, d, behind), depth);
  }

  lemma {:induction false} ParseValueBack(v: Value, d: nat, depth: nat, rest: string)
    requires WellFormed(v) && depth + Depth(v) <= MAX_DEPTH
    ensures ParseValue(TextThen(v, d, rest), depth) == Parsed(v, rest)
    ensures TextThen(v, d, rest) != "" && TextThen(v, d, rest)[0] == '('
    decreases v, 1
  {
    match v {
      case Empty =>
        OpenValue(")" + rest, depth);
        assert (")" + rest)[1..] == rest;
      case Atom(t) =>
        OpenValue(t + (")" + rest), depth);
        TokenInBody(t, ")" + rest, depth);
        assert (")" + rest)[1..] == rest;
      case Node(name, fields) =>
        var tail := Tabs(d) + (")" + rest);
        var printed := FieldsThen(fields, d + 1, tail);
        OpenValue(NameText(name) + ("\n" + printed), depth);
        SkipLeadingSpace(Tabs(d), ")" + rest);
        ParseFieldsBack(fields, d + 1, depth + 1, tail, rest);
        ParseNodeBody(name, fields, d + 1, tail, depth);
    }
  }

  /** Behind the opening parenthesis of a node the parser goes on to the node's fields. */
  lemma ParseNodeBody(name: Option<string>, fields: seq<Field>, d: nat, tail: string, depth: nat)
    requires fields != [] && (name.Some? ==> LegalHead(name.value))
    ensures ParseBody(SkipSpace(NameText(name) + ("\n" + FieldsThen(fields, d, tail))), depth)
         == AsNode(name, ParseFields(FieldsThen(fields, d, tail), depth + 1))
  {
    var printed := FieldsThen(fields, d, tail);
    SkipLeadingSpace("\n", printed);
    FieldsFromSpace(printed, depth + 1);
    FieldsThenFromColon(fields, d, tail);
    if name.Some? {
      TokenInBody(name.value, "\n" + printed, depth);
    } else {
      assert "" + ("\n" + printed) == "\n" + printed;
    }
  }

  /** The serializer's contract, on every tree it holds for. */
  lemma ParserUndoesPrinter(v: Value)
    requires Printable(v)
    ensures Parse(ToWire(v)) == Ok(v)
  {
    ParseValueBack(v, 0, 0, "");
    TextThenIsText(v, 0, "");
    assert ToWire(v) + "" == ToWire(v);
  }

  // ---------------------------------------------------------------------------
  // Every accepted document is canonical
  // ---------------------------------------------------------------------------

  ghost predicate Canonical(v: Value, depth: nat) {
    WellFormed(v) && depth + Depth(v) <= MAX_DEPTH
  }

  lemma {:induction false} ParsedValueIsCanonical(s: string, depth: nat)
    requires ParseValue(s, depth).Parsed?
    ensures Canonical(ParseValue(s, depth).value, depth)
    decreases |s|, 1
  {
    ParsedBodyIsCanonical(SkipSpace(s[1..]), depth);
  }

  lemma {:induction false} ParsedBodyIsCanonical(body: string, depth: nat)
    requires depth < MAX_DEPTH && ParseBody(body, depth).Parsed?
    ensures Canonical(ParseBody(body, depth).value, depth)
    decreases |body|, 5
  {
    if body[0] == ')' {
    } else if body[0] == ':' {
      ParsedFieldsAreCanonical(body, depth + 1);
      assert SkipSpace(body) == body;
    } else {
      var t := ReadToken(body);
      assert ParseBehindToken(t.text, SkipSpace(t.rest), depth).Parsed?;
      assert ParseFields("", depth + 1).Rejected?;
      TokenIsLegal(body);
      ParsedBehindTokenIsCanonical(t.text, SkipSpace(t.rest), depth);
    }
  }

  lemma {:induction false} ParsedBehindTokenIsCanonical(token: string, after: string, depth: nat)
    requires LegalHead(token) && depth < MAX_DEPTH
    requires ParseBehindToken(token, after, depth).Parsed? && SkipSpace(after) == after
    ensures Canonical(ParseBehindToken(token, after, depth).value, depth)
    decreases |after|, 4
  {
    if after != "" && after[0] == ')' {
    } else {
      ParsedFieldsAreCanonical(after, depth + 1);
    }
  }

  lemma {:induction false} ParsedFieldsAreCanonical(s: string, depth: nat)
    requires ParseFields(s, depth).Parsed?
    ensures var fields := ParseFields(s, depth).value;
      WellFormedFields(fields) && (fields != [] ==> depth + FieldsDepth(fields) <= MAX_DEPTH)
    ensures SkipSpace(s) != "" && (SkipSpace(s)[0] != ')' ==> ParseFields(s, depth).value != [])
    decreases |s|, 3
  {
    var here := SkipSpace(s);
    if here[0] != ')' {
      var p := ParseField(here, depth);
      ParsedFieldIsCanonical(here, depth);
      ParsedFieldsAreCanonical(p.rest, depth);
      PrependedIsCanonical(p.value, ParseFields(p.rest, depth).value, depth);
    }
  }

  lemma PrependedIsCanonical(f: Field, fields: seq<Field>, depth: nat)
    requires LegalKey(f.key) && WellFormed(f.value) && depth + Depth(f.value) <= MAX_DEPTH
    requires WellFormedFields(fields) && (fields != [] ==> depth + FieldsDepth(fields) <= MAX_DEPTH)
    ensures WellFormedFields([f] + fields) && depth + FieldsDepth([f] + fields) <= MAX_DEPTH
  {
    assert ([f] + fields)[1..] == fields;
  }

  lemma {:induction false} ParsedFieldIsCanonical(s: string, depth: nat)
    requires s != "" && ParseField(s, depth).Parsed?
    ensures var f := ParseField(s, depth).value;
      LegalKey(f.key) && WellFormed(f.value) && depth + Depth(f.value) <= MAX_DEPTH
    decreases |s|, 2
  {
    var t := ReadToken(SkipSpace(s[1..]));
    TokenIsLegal(SkipSpace(s[1..]));
    ParsedValueIsCanonical(SkipSpace(t.rest), depth);
  }

  /** Whatever the parser accepts, from any text, prints back to text that parses to the same tree. */
  lemma AcceptedDocumentsAreCanonical(input: string)
    requires Parse(input).Ok?
    ensures var v := Parse(input).value;
      && IsNamed(v) && WellFormed(v) && Depth(v) <= MAX_DEPTH
      && (Utf8.Len(ToWire(v)) <= MAX_INPUT_LEN ==> Parse(ToWire(v)) == Ok(v))
  {
    ParsedValueIsCanonical(SkipSpace(input), 0);
    var v := Parse(input).value;
    if Utf8.Len(ToWire(v)) <= MAX_INPUT_LEN {
      ParserUndoesPrinter(v);
    }
  }

  /** Exactly the printable trees survive serializing and parsing. */
  lemma SurvivesExactlyWhenPrintable(v: Value)
    ensures Parse(ToWire(v)) == Ok(v) <==> Printable(v)
  {
    if Printable(v) {
      ParserUndoesPrinter(v);
    }
    if Parse(ToWire(v)) == Ok(v) {
      AcceptedDocumentsAreCanonical(ToWire(v));
    }
  }

  /** The documented contract fails without the condition: a node without fields comes back as an atom. */
  lemma NodeWithoutFieldsIsLost(name: string)
    requires LegalHead(name)
    ensures ParseValue(ToWire(Node(Some(name), [])), 0) == Parsed(Atom(name), "")
    ensures Parse(ToWire(Node(Some(name), []))) != Ok(Node(Some(name), []))
  {
    var v := Node(Some(name), []);
    TextThenIsText(v, 0, "");
    assert ToWire(v) + "" == ToWire(v);
    var tail := Tabs(0) + (")" + "");
    assert tail == ")" && ")"[1..] == "";
    OpenValue(name + ("\n" + tail), 0);
    TokenInBody(name, "\n" + tail, 0);
    SkipLeadingSpace("\n", tail);
    assert ToWire(v)[0] == '(';
  }
}
