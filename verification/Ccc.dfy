/** CCC S-expressions: the tree, its accessors and the serializer. */
module Ccc {
  import opened Wire

  datatype Field = Field(key: string, value: Value)

  datatype Value =
    | Empty
    | Atom(text: string)
    | Node(name: Option<string>, fields: seq<Field>)
  {
    /** The value of the first field called `key`. */
    function Get(key: string): Option<Value> {
      if Node? then Lookup(fields, key) else None
    }

    function Elements(): seq<Value> {
      if Node? then Values(fields) else []
    }

    function AsAtom(): Option<string> {
      if Atom? then Some(text) else None
    }

    function Name(): Option<string> {
      if Node? then name else None
    }
  }

  function Lookup(fields: seq<Field>, key: string): Option<Value> {
    if fields == [] then None
    else if fields[0].key == key then Some(fields[0].value)
    else Lookup(fields[1..], key)
  }

  function Values(fields: seq<Field>): (r: seq<Value>)
    ensures |r| == |fields|
    ensures forall i :: 0 <= i < |r| ==> r[i] == fields[i].value
  {
    seq(|fields|, i requires 0 <= i < |fields| => fields[i].value)
  }

  function Tabs(n: nat): (r: string)
    ensures |r| == n
    ensures forall i :: 0 <= i < n ==> r[i] == '\t'
  {
    seq(n, _ => '\t')
  }

  // ---------------------------------------------------------------------------
  // Serializer
  // ---------------------------------------------------------------------------

  function NameText(name: Option<string>): string {
    if name.Some? then name.value else ""
  }

  /** The text of `v` when its own line is indented by `depth` tabs. */
  function Text(v: Value, depth: nat): string
    decreases v, 1
  {
    match v
    case Empty => "()"
    case Atom(s) => "(" + s + ")"
    case Node(name, fields) =>
      "(" + NameText(name) + "\n" + FieldsText(fields, depth + 1) + Tabs(depth) + ")"
  }

  function FieldText(f: Field, depth: nat): string
    decreases f, 2
  {
    Tabs(depth) + ":" + f.key + " " + Text(f.value, depth) + "\n"
  }

  function FieldsText(fields: seq<Field>, depth: nat): string
    decreases fields, 0
  {
    if fields == [] then ""
    else FieldText(fields[0], depth) + FieldsText(fields[1..], depth)
  }

  function ToWire(v: Value): string { Text(v, 0) }

  lemma {:induction false} FieldsTextConcat(a: seq<Field>, b: seq<Field>, depth: nat)
    ensures FieldsText(a + b, depth) == FieldsText(a, depth) + FieldsText(b, depth)
  {
    if a == [] {
      assert a + b == b;
    } else {
      assert (a + b)[1..] == a[1..] + b && (a + b)[0] == a[0];
      FieldsTextConcat(a[1..], b, depth);
    }
  }

  /** The string a serializer appends to. */
  class TextBuffer {
    var text: string

    constructor ()
      ensures text == ""
    {
      text := "";
    }

    method Push(s: string)
      modifies this
      ensures text == old(text) + s
    {
      text := text + s;
    }

    method PushTabs(n: nat)
      modifies this
      ensures text == old(text) + Tabs(n)
    {
      for i := 0 to n
        invariant text == old(text) + Tabs(i)
      {
        Push("\t");
        assert Tabs(i) + "\t" == Tabs(i + 1);
      }
    }

    method WriteIndented(v: Value, depth: nat)
      modifies this
      ensures text == old(text) + Text(v, depth)
      decreases v, 2
    {
      ghost var before := text;
      match v {
        case Empty =>
          Push("()");
        case Atom(s) =>
          Push("(");
          Push(s);
          Push(")");
          Join4(before, "(", s, ")", "");
        case Node(name, fields) =>
          Push("(");
          Push(NameText(name));
          Push("\n");
          WriteFields(fields, depth + 1);
          PushTabs(depth);
          Push(")");
          Join4(before, "(", NameText(name), "\n", FieldsText(fields, depth + 1));
          Join4(before, "(" + NameText(name) + "\n" + FieldsText(fields, depth + 1), Tabs(depth), ")", "");
      }
    }

    method WriteFields(fields: seq<Field>, depth: nat)
      modifies this
      ensures text == old(text) + FieldsText(fields, depth)
      decreases fields, 1
    {
      ghost var before := text;
      for i := 0 to |fields|
        invariant text == before + FieldsText(fields[..i], depth)
      {
        WriteField(fields[i], depth);
        OneMoreField(fields, i, depth);
        Join4(before, FieldsText(fields[..i], depth), FieldText(fields[i], depth), "", "");
      }
      assert fields[..|fields|] == fields;
    }

    method WriteField(f: Field, depth: nat)
      modifies this
      ensures text == old(text) + FieldText(f, depth)
      decreases f
    {
      ghost var before := text;
      PushTabs(depth);
      Push(":");
      Push(f.key);
      Push(" ");
      WriteIndented(f.value, depth);
      Push("\n");
      Join4(before, Tabs(depth), ":", f.key, " ");
      Join4(before, Tabs(depth) + ":" + f.key + " ", Text(f.value, depth), "\n", "");
    }
  }

  lemma Join4(s: string, a: string, b: string, c: string, d: string)
    ensures s + a + b + c + d == s + (a + b + c + d)
    ensures s + a + b + c == s + (a + b + c)
    ensures s + a + b == s + (a + b)
  {
  }

  lemma OneMoreField(fields: seq<Field>, i: nat, depth: nat)
    requires i < |fields|
    ensures FieldsText(fields[..i + 1], depth) == FieldsText(fields[..i], depth) + FieldText(fields[i], depth)
  {
    assert fields[..i + 1] == fields[..i] + [fields[i]];
    FieldsTextConcat(fields[..i], [fields[i]], depth);
    assert FieldText(fields[i], depth) + FieldsText([], depth) == FieldText(fields[i], depth);
  }

  method WriteWire(v: Value) returns (text: string)
    ensures text == ToWire(v)
  {
    var out := new TextBuffer();
    out.WriteIndented(v, 0);
    text := out.text;
    assert "" + Text(v, 0) == Text(v, 0);
  }
}
