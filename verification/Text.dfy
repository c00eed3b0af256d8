/** The string operations of the standard library that the parsers lean on. */
module Text {
  import opened Wire

  // ---------------------------------------------------------------------------
  // Trimming
  // ---------------------------------------------------------------------------

  /** Unicode White_Space, as `str::trim` uses it. */
  predicate IsWhitespace(c: char) {
    var n := c as int;
    || 9 <= n <= 13 || n == 0x20 || n == 0x85 || n == 0xA0 || n == 0x1680 || 0x2000 <= n <= 0x200A
    || n == 0x2028 || n == 0x2029 || n == 0x202F || n == 0x205F || n == 0x3000
  }

  predicate IsQuote(c: char) { c == '"' }

  /** `str::trim_matches`. */
  function TrimBy(s: string, drop: char -> bool): string
    decreases |s|
  {
    if s != "" && drop(s[0]) then TrimBy(s[1..], drop)
    else if s != "" && drop(s[|s| - 1]) then TrimBy(s[..|s| - 1], drop)
    else s
  }

  function Trim(s: string): string { TrimBy(s, IsWhitespace) }

  function TrimQuotes(s: string): string { TrimBy(s, IsQuote) }

  // ---------------------------------------------------------------------------
  // Splitting
  // ---------------------------------------------------------------------------

  /** `str::split` at every character the pattern matches. */
  function Split(s: string, cuts: char -> bool): (r: seq<string>)
    ensures |r| > 0
  {
    if s == "" then [""]
    else
      var later := Split(s[1..], cuts);
      if cuts(s[0]) then [""] + later else [[s[0]] + later[0]] + later[1..]
  }

  /** Pieces with one mark between each two. */
  function Weave(pieces: seq<string>, marks: string): string
    requires |pieces| == |marks| + 1
  {
    if marks == "" then pieces[0] else pieces[0] + [marks[0]] + Weave(pieces[1..], marks[1..])
  }

  /** The marks are cuts, and nothing in the pieces is. */
  predicate CutAt(pieces: seq<string>, marks: string, cuts: char -> bool) {
    && |pieces| == |marks| + 1
    && (forall i :: 0 <= i < |marks| ==> cuts(marks[i]))
    && (forall i, j :: 0 <= i < |pieces| && 0 <= j < |pieces[i]| ==> !cuts(pieces[i][j]))
  }

  lemma {:induction false} SplitPiece(piece: string, cuts: char -> bool)
    requires forall j :: 0 <= j < |piece| ==> !cuts(piece[j])
    ensures Split(piece, cuts) == [piece]
  {
    if piece != "" {
      SplitPiece(piece[1..], cuts);
      assert [piece[0]] + piece[1..] == piece;
    }
  }

  lemma {:induction false} SplitFirst(piece: string, mark: char, rest: string, cuts: char -> bool)
    requires cuts(mark) && forall j :: 0 <= j < |piece| ==> !cuts(piece[j])
    ensures Split(piece + [mark] + rest, cuts) == [piece] + Split(rest, cuts)
  {
    var s := piece + [mark] + rest;
    if piece == "" {
      assert s[0] == mark && s[1..] == rest;
    } else {
      assert s[1..] == piece[1..] + [mark] + rest;
      SplitFirst(piece[1..], mark, rest, cuts);
      var later := Split(s[1..], cuts);
      assert later == [piece[1..]] + Split(rest, cuts);
      assert later[0] == piece[1..] && later[1..] == Split(rest, cuts);
      assert [piece[0]] + piece[1..] == piece;
    }
  }

  /** Splitting takes woven pieces apart. */
  lemma {:induction false} SplitUndoesWeave(pieces: seq<string>, marks: string, cuts: char -> bool)
    requires CutAt(pieces, marks, cuts)
    ensures Split(Weave(pieces, marks), cuts) == pieces
  {
    if marks == "" {
      assert pieces == [pieces[0]];
      SplitPiece(pieces[0], cuts);
    } else {
      assert forall i, j :: 0 <= i < |pieces| - 1 && 0 <= j < |pieces[1..][i]| ==> pieces[1..][i][j] == pieces[i + 1][j];
      SplitUndoesWeave(pieces[1..], marks[1..], cuts);
      SplitFirst(pieces[0], marks[0], Weave(pieces[1..], marks[1..]), cuts);
      assert [pieces[0]] + pieces[1..] == pieces;
    }
  }

  /** Every text is the weave of its pieces. */
  lemma {:induction false} WeaveUndoesSplit(s: string, cuts: char -> bool) returns (marks: string)
    ensures CutAt(Split(s, cuts), marks, cuts) && Weave(Split(s, cuts), marks) == s
  {
    if s == "" {
      marks := "";
    } else {
      var later := Split(s[1..], cuts);
      marks := WeaveUndoesSplit(s[1..], cuts);
      assert [s[0]] + s[1..] == s;
      if cuts(s[0]) {
        var all := [""] + later;
        assert forall i :: 1 <= i < |all| ==> all[i] == later[i - 1];
        assert ([s[0]] + marks)[1..] == marks && all[1..] == later;
        marks := [s[0]] + marks;
      } else {
        var all := [[s[0]] + later[0]] + later[1..];
        assert forall i :: 1 <= i < |all| ==> all[i] == later[i];
        assert all[1..] == later[1..];
        WeaveInFront(s[0], later, marks);
      }
    }
  }

  lemma WeaveInFront(c: char, pieces: seq<string>, marks: string)
    requires |pieces| == |marks| + 1
    ensures Weave([[c] + pieces[0]] + pieces[1..], marks) == [c] + Weave(pieces, marks)
  {
    var all := [[c] + pieces[0]] + pieces[1..];
    assert all[0] == [c] + pieces[0] && all[1..] == pieces[1..];
    if marks != "" {
      var rest := Weave(pieces[1..], marks[1..]);
      assert [c] + pieces[0] + [marks[0]] + rest == [c] + (pieces[0] + [marks[0]] + rest);
    }
  }

  // ---------------------------------------------------------------------------
  // Selecting
  // ---------------------------------------------------------------------------

  function ValueOf<T, U>(f: T -> Option<U>, x: T): seq<U> {
    if f(x).Some? then [f(x).value] else []
  }

  /** `filter_map`. */
  function FilterMap<T, U>(f: T -> Option<U>, xs: seq<T>): seq<U> {
    if xs == [] then []
    else ValueOf(f, xs[0]) + FilterMap(f, xs[1..])
  }

  /** `y` is the value of the element at `k`. */
  predicate IsValueAt<T, U(==)>(f: T -> Option<U>, xs: seq<T>, y: U, k: nat) {
    k < |xs| && f(xs[k]) == Some(y)
  }

  ghost predicate ValuesAt<T(!new), U(!new)>(f: T -> Option<U>, xs: seq<T>, ys: seq<U>, at: seq<nat>) {
    |at| == |ys| && forall i :: 0 <= i < |ys| ==> IsValueAt(f, xs, ys[i], at[i])
  }

  predicate Rises(at: seq<nat>) {
    forall i, j :: 0 <= i < j < |at| ==> at[i] < at[j]
  }

  ghost predicate AllFound<T(!new), U(!new)>(f: T -> Option<U>, xs: seq<T>, at: seq<nat>) {
    forall k :: 0 <= k < |xs| && f(xs[k]).Some? ==> k in at
  }

  /** `ys` are the values of exactly the elements at `at`, which are all that have one, in order. */
  ghost predicate Selects<T(!new), U(!new)>(f: T -> Option<U>, xs: seq<T>, ys: seq<U>, at: seq<nat>) {
    ValuesAt(f, xs, ys, at) && Rises(at) && AllFound(f, xs, at)
  }

  /** Every index one up. */
  function Up(at: seq<nat>): (r: seq<nat>)
    ensures |r| == |at| && forall i :: 0 <= i < |at| ==> r[i] == at[i] + 1
  {
    seq(|at|, i requires 0 <= i < |at| => at[i] + 1)
  }

  /** The first place, then every index one up. */
  function FirstAndUp(at: seq<nat>): (r: seq<nat>)
    ensures |r| == |at| + 1 && r[0] == 0
    ensures forall i :: 0 < i <= |at| ==> r[i] == at[i - 1] + 1
  {
    seq(|at| + 1, i requires 0 <= i <= |at| => if i == 0 then 0 else at[i - 1] + 1)
  }

  lemma UpHas(at: seq<nat>, k: nat)
    requires k in at
    ensures k + 1 in Up(at) && k + 1 in FirstAndUp(at)
  {
    var i :| 0 <= i < |at| && at[i] == k;
    assert Up(at)[i] == k + 1 && FirstAndUp(at)[i + 1] == k + 1;
  }

  lemma ValueBehind<T(!new), U(!new)>(f: T -> Option<U>, x: T, xs: seq<T>, y: U, k: nat)
    requires IsValueAt(f, xs, y, k)
    ensures IsValueAt(f, [x] + xs, y, k + 1)
  {
    assert ([x] + xs)[k + 1] == xs[k];
  }

  lemma SelectsMoved<T(!new), U(!new)>(f: T -> Option<U>, x: T, xs: seq<T>, ys: seq<U>, at: seq<nat>)
    requires Selects(f, xs, ys, at) && f(x).None?
    ensures ValuesAt(f, [x] + xs, ys, Up(at)) && AllFound(f, [x] + xs, Up(at))
  {
    forall i | 0 <= i < |ys|
      ensures IsValueAt(f, [x] + xs, ys[i], Up(at)[i])
    {
      ValueBehind(f, x, xs, ys[i], at[i]);
    }
    forall k | 0 <= k < |xs| + 1 && f(([x] + xs)[k]).Some?
      ensures k in Up(at)
    {
      assert ([x] + xs)[k] == xs[k - 1];
      UpHas(at, k - 1);
    }
  }

  lemma SelectsFirstValues<T(!new), U(!new)>(f: T -> Option<U>, x: T, xs: seq<T>, ys: seq<U>, at: seq<nat>)
    requires ValuesAt(f, xs, ys, at) && f(x).Some?
    ensures ValuesAt(f, [x] + xs, [f(x).value] + ys, FirstAndUp(at))
  {
    var vals := [f(x).value] + ys;
    forall i | 0 <= i < |vals|
      ensures IsValueAt(f, [x] + xs, vals[i], FirstAndUp(at)[i])
    {
      if i > 0 {
        assert vals[i] == ys[i - 1];
        ValueBehind(f, x, xs, ys[i - 1], at[i - 1]);
      }
    }
  }

  lemma SelectsFirstAll<T(!new), U(!new)>(f: T -> Option<U>, x: T, xs: seq<T>, at: seq<nat>)
    requires AllFound(f, xs, at)
    ensures AllFound(f, [x] + xs, FirstAndUp(at))
  {
    forall k | 0 <= k < |xs| + 1 && f(([x] + xs)[k]).Some?
      ensures k in FirstAndUp(at)
    {
      if k == 0 {
        assert FirstAndUp(at)[0] == k;
      } else {
        assert ([x] + xs)[k] == xs[k - 1];
        UpHas(at, k - 1);
      }
    }
  }

  lemma SelectsOneMore<T(!new), U(!new)>(f: T -> Option<U>, x: T, xs: seq<T>, ys: seq<U>, at: seq<nat>) returns (more: seq<nat>)
    requires Selects(f, xs, ys, at)
    ensures Selects(f, [x] + xs, ValueOf(f, x) + ys, more)
  {
    if f(x).Some? {
      SelectsFirstValues(f, x, xs, ys, at);
      SelectsFirstAll(f, x, xs, at);
      more := FirstAndUp(at);
    } else {
      SelectsMoved(f, x, xs, ys, at);
      assert [] + ys == ys;
      more := Up(at);
    }
  }

  /** Nothing that has a value is dropped, nothing else is kept, and the order stays. */
  lemma {:induction false} FilterMapSelects<T(!new), U(!new)>(f: T -> Option<U>, xs: seq<T>) returns (at: seq<nat>)
    ensures Selects(f, xs, FilterMap(f, xs), at)
  {
    if xs == [] {
      at := [];
    } else {
      at := FilterMapSelects(f, xs[1..]);
      at := SelectsOneMore(f, xs[0], xs[1..], FilterMap(f, xs[1..]), at);
      assert [xs[0]] + xs[1..] == xs;
    }
  }

  // ---------------------------------------------------------------------------
  // Decimal numbers
  // ---------------------------------------------------------------------------

  predicate IsDigit(c: char) { '0' <= c <= '9' }

  predicate IsDecimal(s: string) {
    s != "" && forall i :: 0 <= i < |s| ==> IsDigit(s[i])
  }

  function Decimal(s: string): nat
    requires forall i :: 0 <= i < |s| ==> IsDigit(s[i])
  {
    if s == "" then 0
    else
      var last := s[|s| - 1];
      assert IsDigit(last);
      10 * Decimal(s[..|s| - 1]) + (last - '0') as int
  }

  function DecimalText(n: nat): string {
    var digit := "0123456789"[n % 10];
    if n < 10 then [digit] else DecimalText(n / 10) + [digit]
  }

  lemma {:induction false} DecimalBack(n: nat)
    ensures var s := DecimalText(n);
      IsDecimal(s) && Decimal(s) == n && (|s| == 1 || s[0] != '0')
  {
    var digit := "0123456789"[n % 10];
    assert (digit - '0') as int == n % 10;
    if n < 10 {
      assert Decimal([digit][..0]) == 0;
    } else {
      DecimalBack(n / 10);
      assert DecimalText(n)[..|DecimalText(n)| - 1] == DecimalText(n / 10);
      assert n / 10 != 0;
      if |DecimalText(n / 10)| == 1 {
        assert Decimal(DecimalText(n / 10)[..0]) == 0;
      }
    }
  }

  /** Without a leading zero, a number has one spelling. */
  lemma {:induction false} OneSpelling(s: string)
    requires IsDecimal(s) && (|s| == 1 || s[0] != '0')
    ensures DecimalText(Decimal(s)) == s
    ensures |s| > 1 ==> Decimal(s) >= 10
    decreases |s|
  {
    var front, d := s[..|s| - 1], (s[|s| - 1] - '0') as int;
    assert "0123456789"[d] == s[|s| - 1];
    assert s == front + [s[|s| - 1]];
    if |s| > 1 {
      OneSpelling(front);
      assert |front| == 1 ==> Decimal(front[..0]) == 0;
      assert Decimal(front) >= 1;
      assert Decimal(s) / 10 == Decimal(front) && Decimal(s) % 10 == d;
    } else {
      assert Decimal(front) == 0;
    }
  }

  const U64_MAX: nat := 0xFFFF_FFFF_FFFF_FFFF

  /** `str::parse::<u64>`: one leading `+` is allowed, an overflow is not. */
  function ParseU64(s: string): Option<nat> {
    var digits := if s != "" && s[0] == '+' then s[1..] else s;
    if IsDecimal(digits) && Decimal(digits) <= U64_MAX then Some(Decimal(digits)) else None
  }

  lemma NumberIsRead(n: nat)
    ensures ParseU64(DecimalText(n)) == if n <= U64_MAX then Some(n) else None
  {
    DecimalBack(n);
    assert IsDigit(DecimalText(n)[0]);
  }
}
