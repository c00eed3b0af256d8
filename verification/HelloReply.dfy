/** What the client takes from a Check Point `hello_reply`: address, prefix, DNS servers, search domains, routes and timeouts. */
module HelloReply {
  import opened Wire
  import opened Errors
  import opened Ccc
  import opened Cidr
  import opened Text
  import Framers

  // ---------------------------------------------------------------------------
  // IPv4 text
  // ---------------------------------------------------------------------------

  predicate IsDot(c: char) { c == '.' }

  /** One to three digits, no leading zero, at most 255. */
  function Octet(s: string): Option<Byte> {
    if |s| <= 3 && IsDecimal(s) && (|s| == 1 || s[0] != '0') && Decimal(s) <= 255 then Some(Decimal(s)) else None
  }

  function FromOctets(parts: seq<string>): Option<Address> {
    if |parts| != 4 then None
    else
      match (Octet(parts[0]), Octet(parts[1]), Octet(parts[2]), Octet(parts[3]))
      case (Some(a), Some(b), Some(c), Some(d)) => Some(U32At([a, b, c, d], 0))
      case _ => None
  }

  function ParseIpv4(s: string): Option<Address> { FromOctets(Split(s, IsDot)) }

  function AddressAt(v: Value, key: string): Option<Address> {
    var text := Framers.AtomAt(v, key);
    if text.Some? then ParseIpv4(text.value) else None
  }

  lemma OctetExactly(s: string, b: Byte)
    ensures Octet(s) == Some(b) <==> s == DecimalText(b)
  {
    DecimalBack(b);
    assert |DecimalText(b)| <= 3 by {
      var tens := b / 10;
      assert tens / 10 < 10 && |DecimalText(tens / 10)| == 1;
      assert |DecimalText(tens)| <= 2;
    }
    if Octet(s).Some? {
      OneSpelling(s);
    }
  }

  function OctetTexts(b: Bytes): seq<string>
    requires |b| == 4
  {
    [DecimalText(b[0]), DecimalText(b[1]), DecimalText(b[2]), DecimalText(b[3])]
  }

  /** The dotted-decimal spelling. */
  function Ipv4Text(a: Address): string { Weave(OctetTexts(Be32(a)), "...") }

  lemma BytesOfWord(b: Bytes)
    requires |b| == 4
    ensures Be32(U32At(b, 0)) == b
  {
    var w := U32At(b, 0);
    assert w / 0x1_0000 == U16At(b, 0) && w % 0x1_0000 == U16At(b, 2);
    assert Be16(U16At(b, 0)) == [b[0], b[1]] && Be16(U16At(b, 2)) == [b[2], b[3]];
  }

  lemma OctetsBack(b: Bytes)
    requires |b| == 4
    ensures FromOctets(OctetTexts(b)) == Some(U32At(b, 0))
  {
    OctetExactly(DecimalText(b[0]), b[0]);
    OctetExactly(DecimalText(b[1]), b[1]);
    OctetExactly(DecimalText(b[2]), b[2]);
    OctetExactly(DecimalText(b[3]), b[3]);
    assert [b[0], b[1], b[2], b[3]] == b;
  }

  lemma OctetsHaveNoDots(b: Bytes)
    requires |b| == 4
    ensures CutAt(OctetTexts(b), "...", IsDot)
  {
    DecimalBack(b[0]);
    DecimalBack(b[1]);
    DecimalBack(b[2]);
    DecimalBack(b[3]);
  }

  lemma SpelledIsParsed(a: Address)
    ensures ParseIpv4(Ipv4Text(a)) == Some(a)
  {
    OctetsHaveNoDots(Be32(a));
    SplitUndoesWeave(OctetTexts(Be32(a)), "...", IsDot);
    OctetsBack(Be32(a));
  }

  lemma OctetsAreSpelled(parts: seq<string>)
    requires FromOctets(parts).Some?
    ensures parts == OctetTexts(Be32(FromOctets(parts).value))
  {
    var b: Bytes := [Octet(parts[0]).value, Octet(parts[1]).value, Octet(parts[2]).value, Octet(parts[3]).value];
    BytesOfWord(b);
    OctetExactly(parts[0], b[0]);
    OctetExactly(parts[1], b[1]);
    OctetExactly(parts[2], b[2]);
    OctetExactly(parts[3], b[3]);
    assert parts == OctetTexts(b);
  }

  lemma ParsedIsSpelled(s: string)
    requires ParseIpv4(s).Some?
    ensures s == Ipv4Text(ParseIpv4(s).value)
  {
    var marks := WeaveUndoesSplit(s, IsDot);
    OctetsAreSpelled(Split(s, IsDot));
    assert marks == "...";
  }

  /** The parser accepts exactly one spelling of each address. */
  lemma AddressHasOneSpelling(s: string, a: Address)
    ensures ParseIpv4(s) == Some(a) <==> s == Ipv4Text(a)
  {
    SpelledIsParsed(a);
    if ParseIpv4(s).Some? {
      ParsedIsSpelled(s);
    }
  }

  // ---------------------------------------------------------------------------
  // Masks and prefixes
  // ---------------------------------------------------------------------------

  /** `u32::count_ones`. */
  function CountOnes(n: nat): nat {
    if n == 0 then 0 else n % 2 + CountOnes(n / 2)
  }

  /** `u32::MAX << (32 - p)`, bits that leave the word dropped. */
  function PrefixToNetmask(prefix: Byte): Address {
    var p := if prefix < 32 then prefix else 32;
    if p == 0 then 0 else 0xFFFF_FFFF * Pow2(32 - p) % ADDRESS_SPACE
  }

  function Bit(n: nat, i: nat): nat
    decreases i
  {
    if i == 0 then n % 2 else Bit(n / 2, i - 1)
  }

  /** Within the low `w` bits, no zero above a one. */
  ghost predicate Contiguous(n: nat, w: nat) {
    forall i, j :: 0 <= i < j < w && Bit(n, i) == 1 ==> Bit(n, j) == 1
  }

  /** The top `w - k` of `w` bits set. */
  function TopBits(w: nat, k: nat): nat
    requires k <= w
  {
    Pow2Monotone(k, w);
    Pow2(w) - Pow2(k)
  }

  lemma {:induction false} TopBitsHalve(w: nat, k: nat)
    requires 0 < k <= w
    ensures TopBits(w, k) == 2 * TopBits(w - 1, k - 1)
  {
  }

  lemma {:induction false} TopBitsAt(w: nat, k: nat, i: nat)
    requires k <= w && i < w
    ensures Bit(TopBits(w, k), i) == if i >= k then 1 else 0
    decreases w
  {
    if k > 0 {
      TopBitsHalve(w, k);
      if i > 0 {
        TopBitsAt(w - 1, k - 1, i - 1);
      }
    } else {
      AllOnesHalve(w);
      if i > 0 {
        TopBitsAt(w - 1, 0, i - 1);
      }
    }
  }

  lemma AllOnesHalve(w: nat)
    requires w > 0
    ensures TopBits(w, 0) % 2 == 1 && TopBits(w, 0) / 2 == TopBits(w - 1, 0)
  {
    assert TopBits(w, 0) == 2 * TopBits(w - 1, 0) + 1;
  }

  lemma {:induction false} TopBitsCount(w: nat, k: nat)
    requires k <= w
    ensures CountOnes(TopBits(w, k)) == w - k
    decreases w
  {
    if w > 0 {
      if k > 0 {
        TopBitsHalve(w, k);
        TopBitsCount(w - 1, k - 1);
      } else {
        AllOnesHalve(w);
        TopBitsCount(w - 1, 0);
      }
    }
  }

  lemma {:induction false} AllOnes(n: nat, w: nat)
    requires n < Pow2(w) && forall i :: 0 <= i < w ==> Bit(n, i) == 1
    ensures n == TopBits(w, 0)
    decreases w
  {
    if w > 0 {
      forall i | 0 <= i < w - 1
        ensures Bit(n / 2, i) == 1
      {
        assert Bit(n, i + 1) == 1;
      }
      AllOnes(n / 2, w - 1);
      assert Bit(n, 0) == 1;
      AllOnesHalve(w);
    }
  }

  lemma {:induction false} ContiguousIsTopBits(n: nat, w: nat) returns (k: nat)
    requires n < Pow2(w) && Contiguous(n, w)
    ensures k <= w && n == TopBits(w, k)
    decreases w
  {
    if w == 0 {
      k := 0;
    } else if n % 2 == 1 {
      k := 0;
      forall i | 0 <= i < w
        ensures Bit(n, i) == 1
      {
        assert Bit(n, 0) == 1;
      }
      AllOnes(n, w);
    } else {
      forall i, j | 0 <= i < j < w - 1 && Bit(n / 2, i) == 1
        ensures Bit(n / 2, j) == 1
      {
        assert Bit(n, i + 1) == 1 && Bit(n, j + 1) == 1;
      }
      k := ContiguousIsTopBits(n / 2, w - 1);
      k := k + 1;
      TopBitsHalve(w, k);
    }
  }

  /** The mask has the top bits set, and as many as the prefix says, up to 32. */
  lemma ShiftedIsTopBits(p: nat)
    requires 0 < p <= 32
    ensures 0xFFFF_FFFF * Pow2(32 - p) % ADDRESS_SPACE == TopBits(32, 32 - p)
  {
    Pow2Of32();
    Pow2Monotone(32 - p, 31);
    ShiftDropsHigh(Pow2(32 - p));
  }

  lemma NetmaskIsTopBits(prefix: Byte)
    ensures var p := if prefix < 32 then prefix else 32;
      PrefixToNetmask(prefix) == TopBits(32, 32 - p) && CountOnes(PrefixToNetmask(prefix)) == p
  {
    var p := if prefix < 32 then prefix else 32;
    TopBitsCount(32, 32 - p);
    if p > 0 {
      ShiftedIsTopBits(p);
    } else {
      Pow2Of32();
    }
  }

  lemma TopBitsAreContiguous(w: nat, k: nat)
    requires k <= w
    ensures Contiguous(TopBits(w, k), w)
  {
    forall i, j | 0 <= i < j < w && Bit(TopBits(w, k), i) == 1
      ensures Bit(TopBits(w, k), j) == 1
    {
      TopBitsAt(w, k, i);
      TopBitsAt(w, k, j);
    }
  }

  lemma ShiftDropsHigh(d: nat)
    requires 1 <= d <= ADDRESS_SPACE
    ensures 0xFFFF_FFFF * d % ADDRESS_SPACE == ADDRESS_SPACE - d
  {
    assert 0xFFFF_FFFF * d == (d - 1) * ADDRESS_SPACE + (ADDRESS_SPACE - d);
  }

  /** Counting a mask's bits and rebuilding it gives the mask back exactly when its ones are contiguous from the top. */
  lemma MaskSurvivesExactlyWhen(mask: Address)
    ensures PrefixToNetmask(CountOnes32(mask)) == mask <==> Contiguous(mask, 32)
  {
    var ones := CountOnes32(mask);
    Pow2Of32();
    NetmaskIsTopBits(ones);
    TopBitsAreContiguous(32, if ones < 32 then 32 - ones else 0);
    if Contiguous(mask, 32) {
      var k := ContiguousIsTopBits(mask, 32);
      TopBitsCount(32, k);
    }
  }

  /** `count_ones() as u8` of a 32-bit word. */
  function CountOnes32(mask: Address): Byte {
    Pow2Of32();
    OnesBelow(mask, 32);
    CountOnes(mask)
  }

  lemma {:induction false} OnesBelow(n: nat, w: nat)
    requires n < Pow2(w)
    ensures CountOnes(n) <= w
    decreases w
  {
    if n > 0 {
      OnesBelow(n / 2, w - 1);
    }
  }

  // ---------------------------------------------------------------------------
  // The reply
  // ---------------------------------------------------------------------------

  datatype Session = Session(address: Address, prefix: Byte, dns: seq<Address>, searchDomains: seq<string>,
                             routes: seq<Block>, keepaliveSecs: nat, authTimeoutSecs: nat)

  const SENTINEL: Address := 1

  /** A range element the client routes: both ends parse and it does not start at the default-route sentinel. */
  function RangeOf(elem: Value): Option<(Address, Address)> {
    match (AddressAt(elem, "from"), AddressAt(elem, "to"))
    case (Some(f), Some(t)) => if f != SENTINEL then Some((f, t)) else None
    case _ => None
  }

  function RoutesOf(elems: seq<Value>): seq<Block> {
    if elems == [] then []
    else
      var range := RangeOf(elems[0]);
      (if range.Some? then Subnets(range.value.0, range.value.1) else []) + RoutesOf(elems[1..])
  }

  function ElementsAt(tree: Value, key: string): seq<Value> {
    var node := tree.Get(key);
    if node.Some? then node.value.Elements() else []
  }

  function ServerIn(elem: Value): Option<Address> {
    var text := elem.AsAtom();
    if text.Some? then ParseIpv4(text.value) else None
  }

  function ServersOf(elems: seq<Value>): seq<Address> { FilterMap(ServerIn, elems) }

  /** The servers are the elements that spell an address, all of them and in order; the others are passed over. */
  lemma ServersAreThoseSpelled(elems: seq<Value>) returns (at: seq<nat>)
    ensures var servers := ServersOf(elems);
      && |at| == |servers| && (forall i, j :: 0 <= i < j < |at| ==> at[i] < at[j])
      && (forall i :: 0 <= i < |at| ==> at[i] < |elems| && elems[at[i]] == Atom(Ipv4Text(servers[i])))
      && (forall k, a :: 0 <= k < |elems| && elems[k] == Atom(Ipv4Text(a)) ==> k in at)
  {
    var servers := ServersOf(elems);
    at := FilterMapSelects(ServerIn, elems);
    forall i | 0 <= i < |at|
      ensures elems[at[i]] == Atom(Ipv4Text(servers[i]))
    {
      assert ServerIn(elems[at[i]]) == Some(servers[i]);
      AddressHasOneSpelling(elems[at[i]].text, servers[i]);
    }
    forall k, a | 0 <= k < |elems| && elems[k] == Atom(Ipv4Text(a))
      ensures k in at
    {
      AddressHasOneSpelling(Ipv4Text(a), a);
      assert ServerIn(elems[k]).Some?;
    }
  }

  predicate IsListMark(c: char) { c == ',' || c == ';' }

  /** A list item without the space around it, if anything is left. */
  function Item(piece: string): Option<string> {
    if Trim(piece) == "" then None else Some(Trim(piece))
  }

  function DomainsIn(text: string): seq<string> {
    FilterMap(Item, Split(TrimQuotes(text), IsListMark))
  }

  lemma QuotesGo(s: string)
    requires forall i :: 0 <= i < |s| ==> !IsQuote(s[i])
    ensures TrimQuotes("\"" + s + "\"") == s
  {
    var open := s + "\"";
    var quoted := "\"" + s + "\"";
    assert quoted[0] == '"' && quoted[1..] == open;
    assert TrimQuotes(quoted) == TrimQuotes(open);
    assert TrimQuotes(s) == s;
    if s == "" {
      assert open[0] == '"' && open[1..] == s;
    } else {
      assert open[0] == s[0] && open[|open| - 1] == '"' && open[..|open| - 1] == s;
    }
    assert TrimQuotes(open) == TrimQuotes(s);
  }

  /** A quoted list comes apart at its commas and semicolons, and blank items are dropped. */
  lemma DomainsAreTheItems(pieces: seq<string>, marks: string)
    requires CutAt(pieces, marks, IsListMark) && forall i :: 0 <= i < |Weave(pieces, marks)| ==> !IsQuote(Weave(pieces, marks)[i])
    ensures DomainsIn("\"" + Weave(pieces, marks) + "\"") == FilterMap(Item, pieces)
  {
    QuotesGo(Weave(pieces, marks));
    SplitUndoesWeave(pieces, marks, IsListMark);
  }

  function SubTree(tree: Value, key: string): Value {
    var node := tree.Get(key);
    if node.Some? then node.value else Empty
  }

  function PrefixOf(tree: Value): Byte {
    var mask := AddressAt(SubTree(tree, "optional"), "subnet");
    if mask.Some? then CountOnes32(mask.value) else 32
  }

  const DEFAULT_KEEPALIVE: nat := 20
  const REAUTH_MARGIN: nat := 60

  function SecondsAt(tree: Value, key: string): Option<nat> {
    var text := Framers.AtomAt(SubTree(tree, "timeouts"), key);
    if text.Some? then ParseU64(text.value) else None
  }

  function KeepaliveOf(tree: Value): nat {
    SecondsAt(tree, "keepalive").UnwrapOr(DEFAULT_KEEPALIVE)
  }

  /** The window ends a minute early; `saturating_sub`. */
  function AuthTimeoutOf(tree: Value): nat {
    var secs := SecondsAt(tree, "authentication").UnwrapOr(0);
    if secs < REAUTH_MARGIN then 0 else secs - REAUTH_MARGIN
  }

  function DomainsOf(tree: Value): seq<string> {
    var text := Framers.AtomAt(SubTree(tree, "OM"), "dns_suffix");
    if text.Some? then DomainsIn(text.value) else []
  }

  method ParseHelloReply(tree: Value) returns (r: Result<Session, VpnError>)
    ensures tree.Name() == Some("disconnect") ==> r == Err(ServerDisconnect(Framers.DescribeDisconnect(tree)))
    ensures tree.Name() != Some("disconnect") && tree.Name() != Some("hello_reply") ==> r == Err(Protocol(MalformedDocument))
    ensures tree.Name() == Some("hello_reply") ==>
      var address := AddressAt(SubTree(tree, "OM"), "ipaddr");
      if address.None? then r == Err(Protocol(NoAddressAssigned))
      else r == Ok(Session(address.value, PrefixOf(tree), ServersOf(ElementsAt(SubTree(tree, "OM"), "dns_servers")),
                           DomainsOf(tree), RoutesOf(ElementsAt(tree, "range")), KeepaliveOf(tree), AuthTimeoutOf(tree)))
  {
    if tree.Name() == Some("disconnect") {
      return Err(ServerDisconnect(Framers.DescribeDisconnect(tree)));
    }
    if tree.Name() != Some("hello_reply") {
      return Err(Protocol(MalformedDocument));
    }
    var address := AddressAt(SubTree(tree, "OM"), "ipaddr");
    if address.None? {
      return Err(Protocol(NoAddressAssigned));
    }
    var dns := ServersOf(ElementsAt(SubTree(tree, "OM"), "dns_servers"));
    var routes := CollectRoutes(ElementsAt(tree, "range"));
    r := Ok(Session(address.value, PrefixOf(tree), dns, DomainsOf(tree), routes, KeepaliveOf(tree), AuthTimeoutOf(tree)));
  }

  method CollectRoutes(elems: seq<Value>) returns (routes: seq<Block>)
    ensures routes == RoutesOf(elems)
  {
    routes := [];
    for i := 0 to |elems|
      invariant routes + RoutesOf(elems[i..]) == RoutesOf(elems)
    {
      assert elems[i..][0] == elems[i] && elems[i..][1..] == elems[i + 1..];
      var range := RangeOf(elems[i]);
      if range.Some? {
        var blocks := RangeToSubnets(range.value.0, range.value.1);
        assert routes + (blocks + RoutesOf(elems[i + 1..])) == routes + blocks + RoutesOf(elems[i + 1..]);
        routes := routes + blocks;
      } else {
        assert [] + RoutesOf(elems[i + 1..]) == RoutesOf(elems[i + 1..]);
      }
    }
  }

  /** The address lies in a range the reply asks for. */
  ghost predicate Wanted(elems: seq<Value>, a: int) {
    exists i :: 0 <= i < |elems| && RangeOf(elems[i]).Some? && RangeOf(elems[i]).value.0 <= a <= RangeOf(elems[i]).value.1
  }

  lemma CoveredConcat(x: seq<Block>, y: seq<Block>, a: int)
    ensures Covered(x + y, a) <==> Covered(x, a) || Covered(y, a)
  {
    if Covered(x, a) {
      var b :| b in x && b.prefix <= 32 && Holds(b, a);
      assert b in x + y;
    }
    if Covered(y, a) {
      var b :| b in y && b.prefix <= 32 && Holds(b, a);
      assert b in x + y;
    }
  }

  /** The routes cover exactly the union of the ranges that parse and are not the sentinel. */
  lemma {:induction false} RoutesCoverExactly(elems: seq<Value>, a: int)
    ensures Covered(RoutesOf(elems), a) <==> Wanted(elems, a)
  {
    if elems != [] {
      var range, rest := RangeOf(elems[0]), elems[1..];
      var here := if range.Some? then Subnets(range.value.0, range.value.1) else [];
      RoutesCoverExactly(rest, a);
      CoveredConcat(here, RoutesOf(rest), a);
      if range.Some? {
        ExactCover(range.value.0, range.value.1, a);
      }
      if Wanted(rest, a) {
        var i :| 0 <= i < |rest| && RangeOf(rest[i]).Some? && RangeOf(rest[i]).value.0 <= a <= RangeOf(rest[i]).value.1;
        assert elems[i + 1] == rest[i];
      }
      if Wanted(elems, a) {
        var i :| 0 <= i < |elems| && RangeOf(elems[i]).Some? && RangeOf(elems[i]).value.0 <= a <= RangeOf(elems[i]).value.1;
        assert i > 0 ==> rest[i - 1] == elems[i];
      }
    }
  }
}
