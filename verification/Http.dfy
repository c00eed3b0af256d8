/** Reading one HTTP response off a stream (RFC 9112 sections 6.3 and 7.1). */
module Http {
  import opened Wire
  import opened Errors
  import opened StreamDecoding
  import opened Text
  import Utf8

  const RESPONSE_MAX: nat := 256 * 1024
  const READ_MAX: nat := 4096

  /** The widest chunk size a 64-bit `usize` can hold. */
  const USIZE_MAX: nat := 0xFFFF_FFFF_FFFF_FFFF

  // ---------------------------------------------------------------------------
  // Chunk sizes
  // ---------------------------------------------------------------------------

  predicate IsHexDigit(c: char) {
    '0' <= c <= '9' || 'a' <= c <= 'f' || 'A' <= c <= 'F'
  }

  function HexDigit(c: char): (r: nat)
    requires IsHexDigit(c)
    ensures r < 16
  {
    if c <= '9' then (c - '0') as int
    else if c <= 'F' then (c - 'A') as int + 10
    else (c - 'a') as int + 10
  }

  predicate IsHex(s: string) {
    s != "" && forall c :: c in s ==> IsHexDigit(c)
  }

  function HexValue(s: string): nat
    requires forall c :: c in s ==> IsHexDigit(c)
  {
    if s == "" then 0 else 16 * HexValue(s[..|s| - 1]) + HexDigit(s[|s| - 1])
  }

  /** `usize::from_str_radix(_, 16)`: one leading `+` is allowed, an overflow is not. */
  function ParseHex(s: string): Option<nat> {
    var digits := if s != "" && s[0] == '+' then s[1..] else s;
    if IsHex(digits) && HexValue(digits) <= USIZE_MAX then Some(HexValue(digits)) else None
  }

  function BeforeSemicolon(line: Bytes): Bytes {
    if line == [] || line[0] == 0x3B then [] else [line[0]] + BeforeSemicolon(line[1..])
  }

  function ChunkSize(line: Bytes): Result<nat, VpnError> {
    match Utf8.DecodeStrict(BeforeSemicolon(line))
    case None => Err(Protocol(BadChunk))
    case Some(text) =>
      match ParseHex(Trim(text))
      case None => Err(Protocol(BadChunk))
      case Some(n) => Ok(n)
  }

  // ---------------------------------------------------------------------------
  // Chunked bodies
  // ---------------------------------------------------------------------------

  const CRLF: Bytes := [0x0D, 0x0A]

  predicate CrlfAt(b: Bytes, i: nat) {
    i + 2 <= |b| && b[i] == 0x0D && b[i + 1] == 0x0A
  }

  /** Where the first line ends. */
  function LineEnd(b: Bytes, from: nat): (r: Option<nat>)
    ensures r.Some? ==> from <= r.value && CrlfAt(b, r.value)
    decreases |b| - from
  {
    if from + 2 > |b| then None
    else if CrlfAt(b, from) then Some(from)
    else LineEnd(b, from + 1)
  }

  datatype Head = NoLine | BadLine(error: VpnError) | Sized(size: nat, rest: Bytes)

  /** The size line at the front, and what follows it. */
  function ReadSize(b: Bytes): (r: Head)
    ensures r.Sized? ==> |r.rest| < |b|
  {
    match LineEnd(b, 0)
    case None => NoLine
    case Some(nl) =>
      match ChunkSize(b[..nl])
      case Err(e) => BadLine(e)
      case Ok(size) => Sized(size, b[nl + 2..])
  }

  datatype Body = Whole(data: Bytes) | Incomplete | Bad(error: VpnError)

  function Prepend(data: Bytes, later: Body): Body {
    if later.Whole? then Whole(data + later.data) else later
  }

  datatype Turn = Settled(body: Body) | Took(data: Bytes, rest: Bytes)

  /** One pass of the loop; `taken` bytes of body came before. */
  function TakeChunk(b: Bytes, taken: nat): (r: Turn)
    ensures r.Took? ==> |r.rest| < |b|
  {
    match ReadSize(b)
    case NoLine => Settled(Incomplete)
    case BadLine(e) => Settled(Bad(e))
    case Sized(size, data) =>
      if size == 0 then Settled(Whole([]))
      else if taken + size > RESPONSE_MAX then Settled(Bad(Protocol(OversizedBody)))
      else if |data| < size + 2 then Settled(Incomplete)
      else Took(data[..size], data[size + 2..])
  }

  /** A pass that goes on has used up some bytes. */
  ghost predicate Shrinks(take: (Bytes, nat) -> Turn) {
    forall b, taken :: take(b, taken).Took? ==> |take(b, taken).rest| < |b|
  }

  ghost function Passes(take: (Bytes, nat) -> Turn, b: Bytes, taken: nat): Body
    requires Shrinks(take)
    decreases |b|
  {
    match take(b, taken)
    case Settled(body) => body
    case Took(data, rest) => Prepend(data, Passes(take, rest, taken + |data|))
  }

  ghost function Dechunk(b: Bytes): Body { Passes(TakeChunk, b, 0) }

  method FindLineEnd(b: Bytes, pos: nat) returns (nl: Option<nat>)
    requires pos <= |b|
    ensures nl == LineEnd(b[pos..], 0)
  {
    var i: nat := 0;
    while pos + i + 2 <= |b|
      invariant pos + i <= |b|
      invariant LineEnd(b[pos..], i) == LineEnd(b[pos..], 0)
      decreases |b| - i
    {
      if b[pos + i] == 0x0D && b[pos + i + 1] == 0x0A {
        return Some(i);
      }
      i := i + 1;
    }
    nl := None;
  }

  lemma PrependTwice(a: Bytes, b: Bytes, later: Body)
    ensures Prepend(a, Prepend(b, later)) == Prepend(a + b, later)
  {
    if later.Whole? {
      assert a + (b + later.data) == a + b + later.data;
    }
  }

  lemma PassOn(take: (Bytes, nat) -> Turn, out: Bytes, b: Bytes, data: Bytes, rest: Bytes)
    requires Shrinks(take) && take(b, |out|) == Took(data, rest)
    ensures Prepend(out, Passes(take, b, |out|)) == Prepend(out + data, Passes(take, rest, |out + data|))
  {
    PrependTwice(out, data, Passes(take, rest, |out| + |data|));
  }

  lemma PassSettles(take: (Bytes, nat) -> Turn, out: Bytes, b: Bytes, body: Body)
    requires Shrinks(take) && take(b, |out|) == Settled(body)
    ensures Prepend(out, Passes(take, b, |out|)) == Prepend(out, body)
  {
  }

  type SizeParser = Bytes -> Result<nat, VpnError>

  /** One pass at `pos`, by indices into the whole buffer. */
  ghost function TurnAt(sizeOf: SizeParser, buf: Bytes, pos: nat, taken: nat): Turn
    requires pos <= |buf|
  {
    match LineEnd(buf[pos..], 0)
    case None => Settled(Incomplete)
    case Some(nl) =>
      match sizeOf(buf[pos..pos + nl])
      case Err(e) => Settled(Bad(e))
      case Ok(size) =>
        var at := pos + nl + 2;
        if size == 0 then Settled(Whole([]))
        else if taken + size > RESPONSE_MAX then Settled(Bad(Protocol(OversizedBody)))
        else if |buf| < at + size + 2 then Settled(Incomplete)
        else Took(buf[at..at + size], buf[at + size + 2..])
  }

  lemma TurnAtIsTakeChunk(buf: Bytes, pos: nat, taken: nat)
    requires pos <= |buf|
    ensures TakeChunk(buf[pos..], taken) == TurnAt(ChunkSize, buf, pos, taken)
  {
    if LineEnd(buf[pos..], 0).Some? {
      var nl := LineEnd(buf[pos..], 0).value;
      SliceBehind(buf, pos, nl);
      SliceBehind(buf, pos, nl + 2);
      if TurnAt(ChunkSize, buf, pos, taken).Took? {
        var size := ChunkSize(buf[pos..pos + nl]).value;
        SliceBehind(buf, pos + nl + 2, size);
        SliceBehind(buf, pos + nl + 2, size + 2);
      }
    }
  }

  method DecodeChunked(buf: Bytes) returns (r: Body)
    ensures r == Dechunk(buf)
  {
    forall pos: nat, taken: nat | pos <= |buf|
      ensures TakeChunk(buf[pos..], taken) == TurnAt(ChunkSize, buf, pos, taken)
    {
      TurnAtIsTakeChunk(buf, pos, taken);
    }
    r := DecodeWith(ChunkSize, TakeChunk, buf);
  }

  /** One pass of the loop at `pos`; it goes on at `next`. */
  method Pass(sizeOf: SizeParser, buf: Bytes, pos: nat, taken: nat) returns (turn: Turn, next: nat)
    requires pos <= |buf|
    ensures turn == TurnAt(sizeOf, buf, pos, taken)
    ensures turn.Took? ==> pos < next <= |buf| && turn.rest == buf[next..]
  {
    next := pos;
    var found := FindLineEnd(buf, pos);
    if found.None? {
      return Settled(Incomplete), next;
    }
    var nl := found.value;
    var line := sizeOf(buf[pos..pos + nl]);
    if line.Err? {
      return Settled(Bad(line.error)), next;
    }
    var size := line.value;
    next := pos + nl + 2;
    if size == 0 {
      return Settled(Whole([])), next;
    }
    if taken + size > RESPONSE_MAX {
      return Settled(Bad(Protocol(OversizedBody))), next;
    }
    if |buf| < next + size + 2 {
      return Settled(Incomplete), next;
    }
    turn := Took(buf[next..next + size], buf[next + size + 2..]);
    next := next + size + 2;
  }

  /** The loop, whatever reads a size line. */
  method DecodeWith(sizeOf: SizeParser, ghost take: (Bytes, nat) -> Turn, buf: Bytes) returns (r: Body)
    requires Shrinks(take)
    requires forall pos: nat, taken: nat :: pos <= |buf| ==> take(buf[pos..], taken) == TurnAt(sizeOf, buf, pos, taken)
    ensures r == Passes(take, buf, 0)
  {
    var out: Bytes := [];
    var pos: nat := 0;
    ghost var all := Passes(take, buf, 0);
    assert buf[0..] == buf;
    while true
      invariant pos <= |buf|
      invariant Prepend(out, Passes(take, buf[pos..], |out|)) == all
      decreases |buf| - pos
    {
      ghost var here := buf[pos..];
      var turn, next := Pass(sizeOf, buf, pos, |out|);
      assert take(here, |out|) == turn;
      match turn
      case Settled(body) =>
        PassSettles(take, out, here, body);
        return if body.Whole? then Whole(out) else body;
      case Took(data, rest) =>
        PassOn(take, out, here, data, rest);
        out, pos := out + data, next;
    }
  }

  // ---------------------------------------------------------------------------
  // A decision is final
  // ---------------------------------------------------------------------------

  lemma {:induction false} LineEndStays(b: Bytes, more: Bytes, from: nat)
    requires LineEnd(b, from).Some?
    ensures LineEnd(b + more, from) == LineEnd(b, from)
    decreases |b| - from
  {
    if !CrlfAt(b, from) {
      LineEndStays(b, more, from + 1);
    }
  }

  lemma ReadSizeStays(b: Bytes, more: Bytes)
    requires !ReadSize(b).NoLine?
    ensures ReadSize(b + more)
         == if ReadSize(b).Sized? then Sized(ReadSize(b).size, ReadSize(b).rest + more) else ReadSize(b)
  {
    var nl := LineEnd(b, 0).value;
    LineEndStays(b, more, 0);
    assert (b + more)[..nl] == b[..nl];
    DropInFront(b, more, nl + 2);
  }

  lemma TakeChunkStays(b: Bytes, more: Bytes, taken: nat)
    requires TakeChunk(b, taken) != Settled(Incomplete)
    ensures TakeChunk(b + more, taken)
         == Extended(TakeChunk(b, taken), more)
  {
    ReadSizeStays(b, more);
    if TakeChunk(b, taken).Took? {
      var size, data := ReadSize(b).size, ReadSize(b).rest;
      DropInFront(data, more, size + 2);
      assert (data + more)[..size] == data[..size];
    }
  }

  ghost predicate DecisiveOn(take: (Bytes, nat) -> Turn, b: Bytes, more: Bytes, taken: nat) {
    take(b, taken) != Settled(Incomplete) ==> take(b + more, taken) == Extended(take(b, taken), more)
  }

  ghost predicate Decisive(take: (Bytes, nat) -> Turn) {
    forall b, more, taken :: DecisiveOn(take, b, more, taken)
  }

  function Extended(turn: Turn, more: Bytes): Turn {
    match turn case Settled(body) => Settled(body) case Took(data, rest) => Took(data, rest + more)
  }

  lemma {:induction false} PassesAreStable(take: (Bytes, nat) -> Turn, b: Bytes, more: Bytes, taken: nat)
    requires Shrinks(take) && Decisive(take) && !Passes(take, b, taken).Incomplete?
    ensures Passes(take, b + more, taken) == Passes(take, b, taken)
    decreases |b|
  {
    var turn := take(b, taken);
    assert DecisiveOn(take, b, more, taken);
    if turn.Took? {
      PassesAreStable(take, turn.rest, more, taken + |turn.data|);
    }
  }

  lemma TakeChunkIsDecisive()
    ensures Shrinks(TakeChunk) && Decisive(TakeChunk)
  {
    forall b, more, taken
      ensures DecisiveOn(TakeChunk, b, more, taken)
    {
      if TakeChunk(b, taken) != Settled(Incomplete) {
        TakeChunkStays(b, more, taken);
      }
    }
  }

  /** Once the decoder has a body or an error, bytes that come later change nothing. */
  lemma DechunkIsStable(b: Bytes, more: Bytes)
    requires !Dechunk(b).Incomplete?
    ensures Dechunk(b + more) == Dechunk(b)
  {
    TakeChunkIsDecisive();
    PassesAreStable(TakeChunk, b, more, 0);
  }

  // ---------------------------------------------------------------------------
  // Chunked encoding
  // ---------------------------------------------------------------------------

  /** A chunk as a sender may write it: its size in hex digits, an extension, and the data. */
  datatype Chunk = Chunk(size: string, ext: Bytes, data: Bytes)

  predicate GoodLine(size: string, ext: Bytes) {
    IsHex(size) && 0x0D !in ext && (ext == [] || ext[0] == 0x3B)
  }

  predicate GoodChunk(c: Chunk) {
    GoodLine(c.size, c.ext) && c.data != [] && HexValue(c.size) == |c.data|
  }

  predicate GoodChunks(chunks: seq<Chunk>) {
    forall c :: c in chunks ==> GoodChunk(c)
  }

  /** No chunk is larger than a machine word can count. */
  predicate Addressable(chunks: seq<Chunk>) {
    forall c :: c in chunks ==> |c.data| <= USIZE_MAX
  }

  predicate GoodLast(last: Chunk) {
    GoodLine(last.size, last.ext) && HexValue(last.size) == 0
  }

  function SizeLine(c: Chunk): Bytes { Utf8.Encode(c.size) + c.ext + CRLF }

  /** The chunks in order, then the zero-size line; trailers would follow it. */
  function Chunked(chunks: seq<Chunk>, last: Chunk): Bytes {
    if chunks == [] then SizeLine(last)
    else Spelled(chunks[0], Chunked(chunks[1..], last))
  }

  /** One chunk in front of whatever follows. */
  function Spelled(c: Chunk, later: Bytes): Bytes {
    SizeLine(c) + (c.data + CRLF + later)
  }

  function Joined(chunks: seq<Chunk>): Bytes {
    if chunks == [] then [] else chunks[0].data + Joined(chunks[1..])
  }

  lemma {:induction false} HexBytes(s: string)
    requires forall c :: c in s ==> IsHexDigit(c)
    ensures |Utf8.Encode(s)| == |s|
    ensures forall b :: b in Utf8.Encode(s) ==> 0x30 <= b <= 0x66 && b != 0x3B
  {
    if s != "" {
      assert IsHexDigit(s[0]);
      HexBytes(s[1..]);
      assert Utf8.EncodeChar(s[0]) == [s[0] as int];
    }
  }

  lemma {:induction false} SemicolonCuts(front: Bytes, ext: Bytes)
    requires 0x3B !in front && (ext == [] || ext[0] == 0x3B)
    ensures BeforeSemicolon(front + ext) == front
  {
    if front == [] {
      assert front + ext == ext;
    } else {
      assert (front + ext)[1..] == front[1..] + ext;
      SemicolonCuts(front[1..], ext);
    }
  }

  lemma {:induction false} LineEndAt(b: Bytes, from: nat, nl: nat)
    requires from <= nl && CrlfAt(b, nl) && forall i :: from <= i < nl ==> b[i] != 0x0D
    ensures LineEnd(b, from) == Some(nl)
    decreases nl - from
  {
    if from < nl {
      LineEndAt(b, from + 1, nl);
    }
  }

  lemma {:induction false} NoLineEnd(b: Bytes, from: nat)
    requires forall i :: from <= i < |b| - 1 ==> b[i] != 0x0D
    ensures LineEnd(b, from) == None
    decreases |b| - from
  {
    if from + 2 <= |b| {
      NoLineEnd(b, from + 1);
    }
  }

  lemma HexIsParsed(s: string)
    requires IsHex(s)
    ensures ParseHex(Trim(s)) == if HexValue(s) <= USIZE_MAX then Some(HexValue(s)) else None
  {
    assert IsHexDigit(s[0]) && IsHexDigit(s[|s| - 1]);
    assert Trim(s) == s;
  }

  lemma SizeIsRead(size: string, ext: Bytes)
    requires GoodLine(size, ext)
    ensures ChunkSize(Utf8.Encode(size) + ext)
         == if HexValue(size) <= USIZE_MAX then Ok(HexValue(size)) else Err(Protocol(BadChunk))
    ensures 0x0D !in Utf8.Encode(size) + ext
  {
    HexBytes(size);
    SemicolonCuts(Utf8.Encode(size), ext);
    Utf8.RoundTrip(size);
    HexIsParsed(size);
  }

  lemma SizeLineRead(c: Chunk, later: Bytes)
    requires GoodLine(c.size, c.ext)
    ensures ReadSize(SizeLine(c) + later)
         == if HexValue(c.size) <= USIZE_MAX then Sized(HexValue(c.size), later) else BadLine(Protocol(BadChunk))
  {
    var text := Utf8.Encode(c.size) + c.ext;
    var b := SizeLine(c) + later;
    SizeIsRead(c.size, c.ext);
    assert b == text + (CRLF + later);
    assert b[|text|] == 0x0D && b[|text| + 1] == 0x0A;
    assert forall i :: 0 <= i < |text| ==> b[i] == text[i];
    LineEndAt(b, 0, |text|);
    assert b[..|text|] == text && b[|text| + 2..] == later;
  }

  /** Cut anywhere before its last byte, a size line does not end. */
  lemma SizeLineCut(c: Chunk, k: nat)
    requires GoodLine(c.size, c.ext) && k < |SizeLine(c)|
    ensures ReadSize(SizeLine(c)[..k]) == NoLine
  {
    var text := Utf8.Encode(c.size) + c.ext;
    SizeIsRead(c.size, c.ext);
    assert forall i :: 0 <= i < |text| ==> SizeLine(c)[i] == text[i];
    NoLineEnd(SizeLine(c)[..k], 0);
  }

  lemma ChunkRead(c: Chunk, later: Bytes, taken: nat)
    requires GoodChunk(c)
    ensures TakeChunk(Spelled(c, later), taken) == Expected(c, later, taken)
  {
    var data := c.data + CRLF + later;
    SizeLineRead(c, data);
    assert data[..|c.data|] == c.data && data[|c.data| + 2..] == later;
  }

  function Expected(c: Chunk, later: Bytes, taken: nat): Turn {
    if |c.data| > USIZE_MAX then Settled(Bad(Protocol(BadChunk)))
    else if taken + |c.data| > RESPONSE_MAX then Settled(Bad(Protocol(OversizedBody)))
    else Took(c.data, later)
  }

  /** Reading stops inside a chunk whose size line, data or CRLF is not all there. */
  lemma ChunkCut(c: Chunk, k: nat, taken: nat)
    requires GoodChunk(c) && taken + |c.data| <= RESPONSE_MAX && k < |Spelled(c, [])|
    ensures TakeChunk(Spelled(c, [])[..k], taken) == Settled(Incomplete)
  {
    var data := c.data + CRLF + [];
    if k < |SizeLine(c)| {
      SizeLineCut(c, k);
      assert Spelled(c, [])[..k] == SizeLine(c)[..k];
    } else {
      SizeLineRead(c, data[..k - |SizeLine(c)|]);
      assert Spelled(c, [])[..k] == SizeLine(c) + data[..k - |SizeLine(c)|];
    }
  }

  /** What one pass makes of a chunk, of the last line, and of either cut short. */
  ghost predicate Understands(take: (Bytes, nat) -> Turn) {
    && Shrinks(take)
    && (forall c, later, taken :: GoodChunk(c) ==> take(Spelled(c, later), taken) == Expected(c, later, taken))
    && (forall c, k: nat, taken: nat :: GoodChunk(c) && taken + |c.data| <= RESPONSE_MAX && k < |Spelled(c, [])| ==>
          take(Spelled(c, [])[..k], taken) == Settled(Incomplete))
    && (forall c, later, taken :: GoodLast(c) ==> take(SizeLine(c) + later, taken) == Settled(Whole([])))
    && (forall c, k: nat, taken :: GoodLast(c) && k < |SizeLine(c)| ==>
          take(SizeLine(c)[..k], taken) == Settled(Incomplete))
  }

  lemma TakeChunkUnderstands()
    ensures Understands(TakeChunk)
  {
    forall c, later, taken | GoodChunk(c)
      ensures TakeChunk(Spelled(c, later), taken) == Expected(c, later, taken)
    {
      ChunkRead(c, later, taken);
    }
    forall c, k: nat, taken: nat | GoodChunk(c) && taken + |c.data| <= RESPONSE_MAX && k < |Spelled(c, [])|
      ensures TakeChunk(Spelled(c, [])[..k], taken) == Settled(Incomplete)
    {
      ChunkCut(c, k, taken);
    }
    forall c, later, taken: nat | GoodLast(c)
      ensures TakeChunk(SizeLine(c) + later, taken) == Settled(Whole([]))
    {
      SizeLineRead(c, later);
    }
    forall c, k: nat, taken: nat | GoodLast(c) && k < |SizeLine(c)|
      ensures TakeChunk(SizeLine(c)[..k], taken) == Settled(Incomplete)
    {
      SizeLineCut(c, k);
    }
  }

  lemma SpelledAndMore(c: Chunk, later: Bytes, more: Bytes)
    ensures Spelled(c, later) + more == Spelled(c, later + more)
  {
    assert c.data + CRLF + later + more == c.data + CRLF + (later + more);
  }

  lemma SpelledCut(c: Chunk, later: Bytes, k: nat)
    requires k <= |Spelled(c, later)|
    ensures var head := |Spelled(c, [])|;
      Spelled(c, later)[..k] == if k < head then Spelled(c, [])[..k] else Spelled(c, later[..k - head])
  {
    var head := |Spelled(c, [])|;
    if k >= head {
      assert Spelled(c, later) == Spelled(c, []) + later && Spelled(c, later[..k - head]) == Spelled(c, []) + later[..k - head];
    }
  }

  lemma {:induction false} AllChunksRead(take: (Bytes, nat) -> Turn, chunks: seq<Chunk>, last: Chunk, trailers: Bytes,
                                         taken: nat)
    requires Understands(take) && GoodChunks(chunks) && GoodLast(last) && taken <= RESPONSE_MAX
    ensures var r, fits := Passes(take, Chunked(chunks, last) + trailers, taken), taken + |Joined(chunks)| <= RESPONSE_MAX;
      && (fits ==> r == Whole(Joined(chunks)))
      && (!fits ==> r.Bad?)
      && (!fits && Addressable(chunks) ==> r == Bad(Protocol(OversizedBody)))
  {
    if chunks != [] {
      var c, later := chunks[0], Chunked(chunks[1..], last) + trailers;
      assert GoodChunk(c) && GoodChunks(chunks[1..]);
      SpelledAndMore(c, Chunked(chunks[1..], last), trailers);
      assert take(Spelled(c, later), taken) == Expected(c, later, taken);
      if taken + |c.data| <= RESPONSE_MAX {
        AllChunksRead(take, chunks[1..], last, trailers, taken + |c.data|);
      }
    }
  }

  /**
   * Decoding inverts chunked encoding for every partition of the body, every
   * spelling of the sizes and whatever follows, exactly when the body is within
   * the size guard; past the guard it is refused.
   */
  lemma DechunkInverts(chunks: seq<Chunk>, last: Chunk, trailers: Bytes)
    requires GoodChunks(chunks) && GoodLast(last)
    ensures Dechunk(Chunked(chunks, last) + trailers) == Whole(Joined(chunks)) <==> |Joined(chunks)| <= RESPONSE_MAX
    ensures |Joined(chunks)| > RESPONSE_MAX ==> Dechunk(Chunked(chunks, last) + trailers).Bad?
    ensures |Joined(chunks)| > RESPONSE_MAX && Addressable(chunks) ==>
              Dechunk(Chunked(chunks, last) + trailers) == Bad(Protocol(OversizedBody))
  {
    TakeChunkUnderstands();
    AllChunksRead(TakeChunk, chunks, last, trailers, 0);
  }

  lemma {:induction false} CutIsIncomplete(take: (Bytes, nat) -> Turn, chunks: seq<Chunk>, last: Chunk, k: nat, taken: nat)
    requires Understands(take) && GoodChunks(chunks) && GoodLast(last) && taken + |Joined(chunks)| <= RESPONSE_MAX
    requires k < |Chunked(chunks, last)|
    ensures Passes(take, Chunked(chunks, last)[..k], taken) == Incomplete
  {
    if chunks != [] {
      var c, rest := chunks[0], Chunked(chunks[1..], last);
      var head := |Spelled(c, [])|;
      assert GoodChunk(c) && GoodChunks(chunks[1..]);
      SpelledCut(c, rest, k);
      if k < head {
        assert take(Spelled(c, [])[..k], taken) == Settled(Incomplete);
      } else {
        assert take(Spelled(c, rest[..k - head]), taken) == Expected(c, rest[..k - head], taken);
        CutIsIncomplete(take, chunks[1..], last, k - head, taken + |c.data|);
      }
    } else {
      assert take(SizeLine(last)[..k], taken) == Settled(Incomplete);
    }
  }

  /** On every prefix that stops before the zero-size line is complete, the decoder asks for more. */
  lemma PrefixAsksForMore(chunks: seq<Chunk>, last: Chunk, k: nat)
    requires GoodChunks(chunks) && GoodLast(last) && |Joined(chunks)| <= RESPONSE_MAX
    requires k < |Chunked(chunks, last)|
    ensures Dechunk(Chunked(chunks, last)[..k]) == Incomplete
  {
    TakeChunkUnderstands();
    CutIsIncomplete(TakeChunk, chunks, last, k, 0);
  }

  // ---------------------------------------------------------------------------
  // Every body can be sent
  // ---------------------------------------------------------------------------

  function HexText(n: nat): string {
    var digit := "0123456789abcdef"[n % 16];
    if n < 16 then [digit] else HexText(n / 16) + [digit]
  }

  lemma {:induction false} EverySizeHasHex(n: nat)
    ensures IsHex(HexText(n)) && HexValue(HexText(n)) == n
  {
    var digit := "0123456789abcdef"[n % 16];
    assert IsHexDigit(digit) && HexDigit(digit) == n % 16;
    if n < 16 {
      assert HexValue([digit][..0]) == 0;
    } else {
      EverySizeHasHex(n / 16);
      assert HexText(n)[..|HexText(n)| - 1] == HexText(n / 16);
    }
  }

  const LAST: Chunk := Chunk("0", [], [])

  /** The plainest spelling of a body cut into these pieces. */
  function Spelling(pieces: seq<Bytes>): seq<Chunk> {
    if pieces == [] then [] else [Chunk(HexText(|pieces[0]|), [], pieces[0])] + Spelling(pieces[1..])
  }

  lemma {:induction false} SpellingIsGood(pieces: seq<Bytes>)
    requires [] !in pieces
    ensures GoodChunks(Spelling(pieces)) && Joined(Spelling(pieces)) == Concat(pieces)
  {
    if pieces != [] {
      EverySizeHasHex(|pieces[0]|);
      SpellingIsGood(pieces[1..]);
      assert Spelling(pieces)[1..] == Spelling(pieces[1..]);
    }
  }

  /** Every way of cutting a body into chunks has an encoding, and it decodes to the body exactly within the guard. */
  lemma EveryBodyCanBeSent(pieces: seq<Bytes>, trailers: Bytes)
    requires [] !in pieces
    ensures Dechunk(Chunked(Spelling(pieces), LAST) + trailers) == Whole(Concat(pieces)) <==> |Concat(pieces)| <= RESPONSE_MAX
  {
    SpellingIsGood(pieces);
    assert HexValue("0"[..0]) == 0;
    DechunkInverts(Spelling(pieces), LAST, trailers);
  }
}
