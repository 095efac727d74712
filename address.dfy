/** The cell-address codec: bijective base-26 column letters, addresses with
    optional `$` markers, ranges and the rectangle a range covers. */
module Address {
  import opened Wrappers
  import opened Text

  /** A cell address as text, e.g. "B3" or "$B$3". */
  type CellAddress = string

  datatype AddressParts = AddressParts(col: int, row: int, absoluteCol: bool, absoluteRow: bool)

  datatype Order = ColMajor | RowMajor

  predicate AllUpper(s: string) { forall i :: 0 <= i < |s| ==> IsUpper(s[i]) }

  /** A non-empty run of letters A-Z (`^[A-Z]+$`). */
  predicate IsColumnLetters(s: string) { |s| > 0 && AllUpper(s) }

  function Letter(d: int): (c: char)
    requires 0 <= d < 26
    ensures IsUpper(c) && c as int - 64 == d + 1
  {
    (65 + d) as char
  }

  /** The letters of column n (0 -> "A", 25 -> "Z", 26 -> "AA"); "" for n = -1,
      which is where the encoding loop stops. */
  function Letters(n: int): string
    requires n >= -1
    decreases n + 1
  {
    if n < 0 then "" else Letters(n / 26 - 1) + [Letter(n % 26)]
  }

  /** For n >= 0 the letters are a non-empty string over A-Z. */
  lemma {:induction false} LettersShape(n: int)
    requires n >= -1
    ensures AllUpper(Letters(n))
    ensures |Letters(n)| > 0 <==> n >= 0
    decreases n + 1
  {
    if n >= 0 {
      LettersShape(n / 26 - 1);
    }
  }

  /** The bijective base-26 value of a letter string, read left to right
      ("A" -> 1, "Z" -> 26, "AA" -> 27): one more than its column index. */
  function LetterValue(s: string): int
  {
    if s == [] then 0 else LetterValue(s[..|s| - 1]) * 26 + (s[|s| - 1] as int - 64)
  }

  lemma {:induction false} LettersValue(n: int)
    requires n >= -1
    ensures LetterValue(Letters(n)) == n + 1
    decreases n + 1
  {
    if n >= 0 {
      var q := n / 26 - 1;
      LettersValue(q);
      var s := Letters(n);
      assert s[..|s| - 1] == Letters(q);
    }
  }

  lemma {:induction false} ValueLetters(s: string)
    requires AllUpper(s)
    ensures LetterValue(s) >= 0 && Letters(LetterValue(s) - 1) == s
  {
    if s != [] {
      var p := s[..|s| - 1];
      var d := s[|s| - 1] as int - 64;
      ValueLetters(p);
      var n := LetterValue(s) - 1;
      assert n == LetterValue(p) * 26 + (d - 1);
      assert n / 26 == LetterValue(p) && n % 26 == d - 1;
      assert s == p + [s[|s| - 1]];
    }
  }

  lemma DivStep(n: int)
    requires n >= 0
    ensures 0 <= n % 26 < 26 && -1 <= n / 26 - 1 < n
  {
  }

  /** colToLetter (lib/address.ts:4-13): negative columns are refused, otherwise the
      loop prepends one letter per base-26 digit. */
  method ColToLetter(col: int) returns (r: Result<string>)
    ensures col < 0 ==> r == Err("Negative column")
    ensures col >= 0 ==> r == Ok(Letters(col))
  {
    if col < 0 {
      return Err("Negative column");
    }
    var s := "";
    var n := col;
    while n >= 0
      invariant n >= -1
      invariant Letters(col) == Letters(n) + s
      decreases n + 1
    {
      var d, q := n % 26, n / 26 - 1;
      assert 0 <= d < 26 && -1 <= q < n by { DivStep(n); }
      assert Letters(n) == Letters(q) + [Letter(d)];
      assert Letters(col) == Letters(q) + ([Letter(d)] + s);
      s := [Letter(d)] + s;
      n := q;
    }
    assert n == -1 && Letters(n) == "";
    assert s == Letters(col);
    return Ok(s);
  }

  /** letterToCol (lib/address.ts:16-21). */
  method LetterToCol(letters: string) returns (r: Result<int>)
    ensures !IsColumnLetters(letters) ==> r == Err("Invalid letters")
    ensures IsColumnLetters(letters) ==> r.Ok? && r.value >= 0 && Letters(r.value) == letters
  {
    if !IsColumnLetters(letters) {
      return Err("Invalid letters");
    }
    var n := 0;
    for i := 0 to |letters|
      invariant n == LetterValue(letters[..i])
    {
      assert letters[..i + 1][..i] == letters[..i];
      n := n * 26 + (letters[i] as int - 64);
    }
    assert letters[..|letters|] == letters;
    ValueLetters(letters);
    return Ok(n - 1);
  }

  /** The text of an address: `$?LETTERS$?DIGITS`. */
  function Compose(absoluteCol: bool, letters: string, absoluteRow: bool, digits: string): string
  {
    (if absoluteCol then "$" else "") + letters + (if absoluteRow then "$" else "") + digits
  }

  /** The text matches `^(\$)?([A-Z]+)(\$)?(\d+)$`. */
  ghost predicate MatchesAddressPattern(addr: string)
  {
    exists ac: bool, letters: string, ar: bool, digits: string
      :: IsColumnLetters(letters) && IsDigitString(digits) && addr == Compose(ac, letters, ar, digits)
  }

  /** End of the run of letters A-Z that starts at i. */
  function UpperRun(s: string, i: nat): (j: nat)
    requires i <= |s|
    ensures i <= j <= |s|
    ensures AllUpper(s[i..j])
    ensures j < |s| ==> !IsUpper(s[j])
    decreases |s| - i
  {
    if i < |s| && IsUpper(s[i]) then UpperRun(s, i + 1) else i
  }

  lemma {:induction false} UpperRunOver(s: string, i: nat, j: nat)
    requires i <= j <= |s|
    requires AllUpper(s[i..j])
    requires j < |s| ==> !IsUpper(s[j])
    ensures UpperRun(s, i) == j
    decreases j - i
  {
    if i < j {
      assert s[i] == s[i..j][0];
      assert s[i + 1..j] == s[i..j][1..];
      UpperRunOver(s, i + 1, j);
    }
  }

  /** Where the letters of an address start: after an optional `$`. */
  function ColStart(addr: string): nat
  {
    if |addr| > 0 && addr[0] == '$' then 1 else 0
  }

  /** Where the letters of an address end. */
  function ColEnd(addr: string): (j: nat)
    ensures ColStart(addr) <= j <= |addr|
  {
    if |addr| == 0 then 0 else UpperRun(addr, ColStart(addr))
  }

  /** Where the digits of an address start: after an optional second `$`. */
  function RowStart(addr: string): (k: nat)
    ensures ColEnd(addr) <= k <= |addr|
  {
    var j := ColEnd(addr);
    if j < |addr| && addr[j] == '$' then j + 1 else j
  }

  /** parseAddress (lib/address.ts:24-36), matching the address pattern by a scan. */
  function ParseAddress(addr: string): (r: Result<AddressParts>)
    ensures r.Err? ==> r == Err("Invalid address: " + addr)
  {
    var i, j, k := ColStart(addr), ColEnd(addr), RowStart(addr);
    if j == i || !IsDigitString(addr[k..]) then Err("Invalid address: " + addr)
    else Ok(AddressParts(LetterValue(addr[i..j]) - 1, DigitsValue(addr[k..]) - 1, i == 1, k == j + 1))
  }

  /** Every text of the address shape parses, to the column of its letters and
      the row its digits name (one less, since rows are 1-based in text). */
  lemma ParseComposed(ac: bool, letters: string, ar: bool, digits: string)
    requires IsColumnLetters(letters) && IsDigitString(digits)
    ensures ParseAddress(Compose(ac, letters, ar, digits))
            == Ok(AddressParts(LetterValue(letters) - 1, DigitsValue(digits) - 1, ac, ar))
  {
    ParseComposedText(Compose(ac, letters, ar, digits), ac, letters, ar, digits);
  }

  lemma ParseComposedText(s: string, ac: bool, letters: string, ar: bool, digits: string)
    requires IsColumnLetters(letters) && IsDigitString(digits)
    requires s == Compose(ac, letters, ar, digits)
    ensures ParseAddress(s) == Ok(AddressParts(LetterValue(letters) - 1, DigitsValue(digits) - 1, ac, ar))
  {
    var i := if ac then 1 else 0;
    var j := i + |letters|;
    var k := j + (if ar then 1 else 0);
    ComposedBounds(ac, letters, ar, digits);
    assert ColStart(s) == i && ColEnd(s) == j && RowStart(s) == k;
  }

  /** Where the parts of a composed address lie. */
  lemma ComposedBounds(ac: bool, letters: string, ar: bool, digits: string)
    requires IsColumnLetters(letters) && IsDigitString(digits)
    ensures var s := Compose(ac, letters, ar, digits);
            var i := if ac then 1 else 0;
            var j := i + |letters|;
            var k := j + (if ar then 1 else 0);
            && |s| == k + |digits|
            && ColStart(s) == i && ColEnd(s) == j
            && s[i..j] == letters && s[k..] == digits
            && (j < |s| && s[j] == '$' <==> ar)
  {
    var pre: string := if ac then "$" else "";
    var mid: string := if ar then "$" else "";
    var s := Compose(ac, letters, ar, digits);
    var i := |pre|;
    var j := i + |letters|;
    var k := j + |mid|;
    assert s == pre + (letters + (mid + digits));
    assert ColStart(s) == i by {
      if !ac { assert s[0] == letters[0]; }
    }
    assert s[i..j] == letters;
    assert s[k..] == digits;
    assert s[j] == if ar then '$' else digits[0];
    UpperRunOver(s, i, j);
  }

  /** A parsed column is never negative. */
  lemma ParseColumn(addr: string)
    requires ParseAddress(addr).Ok?
    ensures ParseAddress(addr).value.col >= 0
  {
    var i, j := ColStart(addr), ColEnd(addr);
    UpperRunOver(addr, i, j);
    LetterValuePositive(addr[i..j]);
  }

  lemma {:induction false} LetterValuePositive(s: string)
    requires IsColumnLetters(s)
    ensures LetterValue(s) >= 1
  {
    if |s| > 1 {
      LetterValuePositive(s[..|s| - 1]);
    }
  }

  /** Only texts of the address shape parse. */
  lemma ParseSound(addr: string)
    requires ParseAddress(addr).Ok?
    ensures MatchesAddressPattern(addr)
  {
    var i, j, k := ColStart(addr), ColEnd(addr), RowStart(addr);
    assert addr == Compose(i == 1, addr[i..j], k == j + 1, addr[k..]);
  }

  /** parseAddress succeeds exactly on texts matching `^(\$)?([A-Z]+)(\$)?(\d+)$`. */
  lemma ParseAddressMatches(addr: string)
    ensures ParseAddress(addr).Ok? <==> MatchesAddressPattern(addr)
  {
    if ParseAddress(addr).Ok? {
      ParseSound(addr);
    }
    if MatchesAddressPattern(addr) {
      var ac: bool, letters: string, ar: bool, digits: string
        :| IsColumnLetters(letters) && IsDigitString(digits) && addr == Compose(ac, letters, ar, digits);
      ParseComposed(ac, letters, ar, digits);
    }
  }

  /** formatAddress (lib/address.ts:38-49): refuses negative indices, otherwise
      spells the column in letters and the row 1-based. */
  function FormatAddress(col: int, row: int, absoluteCol: bool, absoluteRow: bool): (r: Result<CellAddress>)
    ensures r.Err? <==> col < 0 || row < 0
    ensures r.Err? ==> r.msg == "Negative indices"
  {
    if col < 0 || row < 0 then Err("Negative indices")
    else Ok(Compose(absoluteCol, Letters(col), absoluteRow, NatToString(row + 1)))
  }

  /** The address formatAddress writes parses back to exactly its arguments. */
  lemma FormatParseRoundTrip(col: int, row: int, absoluteCol: bool, absoluteRow: bool)
    ensures var r := FormatAddress(col, row, absoluteCol, absoluteRow);
            r.Ok? ==> ParseAddress(r.value) == Ok(AddressParts(col, row, absoluteCol, absoluteRow))
  {
    if col >= 0 && row >= 0 {
      LettersShape(col);
      LettersValue(col);
      NatToStringDigits(row + 1);
      ParseComposed(absoluteCol, Letters(col), absoluteRow, NatToString(row + 1));
    }
  }

  /** The address without `$` markers that iterateRange yields. */
  function PlainAddress(col: nat, row: nat): (a: CellAddress)
  {
    FormatAddress(col, row, false, false).value
  }

  lemma PlainAddressParses(col: nat, row: nat)
    ensures ParseAddress(PlainAddress(col, row)) == Ok(AddressParts(col, row, false, false))
  {
    FormatParseRoundTrip(col, row, false, false);
  }

  lemma PlainAddressInjective(c1: nat, r1: nat, c2: nat, r2: nat)
    requires PlainAddress(c1, r1) == PlainAddress(c2, r2)
    ensures c1 == c2 && r1 == r2
  {
    PlainAddressParses(c1, r1);
    PlainAddressParses(c2, r2);
  }

  /** parseRange (lib/address.ts:51-58): the text must hold exactly one ':'. */
  function ParseRange(range: string): (r: Result<(CellAddress, CellAddress)>)
    ensures r.Ok? <==> multiset(range)[':'] == 1
    ensures r.Ok? ==> range == r.value.0 + ":" + r.value.1
    ensures r.Err? ==> r.msg == "Invalid range"
  {
    var i := IndexOf(range, ':');
    if i == |range| then
      assert range == range[..i];
      Err("Invalid range")
    else
      var a, b := range[..i], range[i + 1..];
      assert range == a + [':'] + b;
      assert multiset(range)[':'] == multiset(a)[':'] + 1 + multiset(b)[':'];
      if ':' in b then Err("Invalid range")
      else Ok((a, b))
  }

  // ---------------------------------------------------------------------------
  // The rectangle of a range, in the order iterateRange walks it.

  /** A (col, row) pair from an outer and an inner loop coordinate. */
  function Pair(outer: int, inner: int, order: Order): (int, int)
  {
    if order == ColMajor then (outer, inner) else (inner, outer)
  }

  /** The (outer, inner) key a pair is ordered by. */
  function Key(p: (int, int), order: Order): (int, int)
  {
    if order == ColMajor then p else (p.1, p.0)
  }

  predicate KeyLess(p: (int, int), q: (int, int), order: Order)
  {
    var a, b := Key(p, order), Key(q, order);
    a.0 < b.0 || (a.0 == b.0 && a.1 < b.1)
  }

  predicate Ascending(ps: seq<(int, int)>, order: Order)
  {
    forall i, j :: 0 <= i < j < |ps| ==> KeyLess(ps[i], ps[j], order)
  }

  /** The inner loop: inner coordinates i0..i1 at outer coordinate o. */
  function Line(o: int, i0: int, i1: int, order: Order): seq<(int, int)>
    decreases i1 - i0 + 1
  {
    if i1 < i0 then [] else Line(o, i0, i1 - 1, order) + [Pair(o, i1, order)]
  }

  /** Both loops: outer coordinates o0..o1, each with inner coordinates i0..i1. */
  function Block(o0: int, o1: int, i0: int, i1: int, order: Order): seq<(int, int)>
    decreases o1 - o0 + 1
  {
    if o1 < o0 then [] else Block(o0, o1 - 1, i0, i1, order) + Line(o1, i0, i1, order)
  }

  lemma {:induction false} LineFacts(o: int, i0: int, i1: int, order: Order)
    requires i0 <= i1 + 1
    ensures |Line(o, i0, i1, order)| == i1 - i0 + 1
    ensures forall k :: 0 <= k < |Line(o, i0, i1, order)| ==> Line(o, i0, i1, order)[k] == Pair(o, i0 + k, order)
    decreases i1 - i0 + 1
  {
    if i0 <= i1 {
      LineFacts(o, i0, i1 - 1, order);
    }
  }

  lemma {:induction false} BlockLength(o0: int, o1: int, i0: int, i1: int, order: Order)
    requires o0 <= o1 + 1 && i0 <= i1 + 1
    ensures |Block(o0, o1, i0, i1, order)| == (o1 - o0 + 1) * (i1 - i0 + 1)
    decreases o1 - o0 + 1
  {
    if o0 <= o1 {
      BlockLength(o0, o1 - 1, i0, i1, order);
      LineFacts(o1, i0, i1, order);
      assert (o1 - o0) * (i1 - i0 + 1) + (i1 - i0 + 1) == (o1 - o0 + 1) * (i1 - i0 + 1);
    }
  }

  lemma {:induction false} BlockFacts(o0: int, o1: int, i0: int, i1: int, order: Order)
    requires o0 <= o1 + 1 && i0 <= i1 + 1
    ensures Ascending(Block(o0, o1, i0, i1, order), order)
    ensures forall p :: p in Block(o0, o1, i0, i1, order)
              <==> var k := Key(p, order); o0 <= k.0 <= o1 && i0 <= k.1 <= i1
    decreases o1 - o0 + 1
  {
    if o0 <= o1 {
      var prev := Block(o0, o1 - 1, i0, i1, order);
      var line := Line(o1, i0, i1, order);
      BlockFacts(o0, o1 - 1, i0, i1, order);
      LineFacts(o1, i0, i1, order);
      var all := prev + line;
      forall i, j | 0 <= i < j < |all| ensures KeyLess(all[i], all[j], order) {
        if j < |prev| {
        } else if i >= |prev| {
          assert all[i] == line[i - |prev|] && all[j] == line[j - |prev|];
        } else {
          assert all[i] in prev;
          assert all[j] == line[j - |prev|];
        }
      }
      forall p ensures p in all <==> var k := Key(p, order); o0 <= k.0 <= o1 && i0 <= k.1 <= i1 {
        var k := Key(p, order);
        if o0 <= k.0 <= o1 && i0 <= k.1 <= i1 && k.0 == o1 {
          assert p == line[k.1 - i0];
        }
        if p in line {
          var m :| 0 <= m < |line| && line[m] == p;
        }
      }
    }
  }

  /** The (col, row) pairs iterateRange visits, in order. */
  function RangeCoords(a: AddressParts, b: AddressParts, order: Order): seq<(int, int)>
  {
    var minCol, maxCol := Min(a.col, b.col), Max(a.col, b.col);
    var minRow, maxRow := Min(a.row, b.row), Max(a.row, b.row);
    if order == ColMajor then Block(minCol, maxCol, minRow, maxRow, order)
    else Block(minRow, maxRow, minCol, maxCol, order)
  }

  function Min(x: int, y: int): int { if x <= y then x else y }
  function Max(x: int, y: int): int { if x <= y then y else x }

  /** The address formatAddress gives a (col, row) pair ("" for a pair it refuses). */
  function AddressOf(p: (int, int)): CellAddress
  {
    if p.0 < 0 || p.1 < 0 then "" else PlainAddress(p.0, p.1)
  }

  /** The addresses of a sequence of (col, row) pairs. */
  function Addresses(ps: seq<(int, int)>): (out: seq<CellAddress>)
  {
    seq(|ps|, k requires 0 <= k < |ps| => AddressOf(ps[k]))
  }

  lemma AddressesAppend(xs: seq<(int, int)>, ys: seq<(int, int)>)
    ensures Addresses(xs + ys) == Addresses(xs) + Addresses(ys)
  {
    var l, r := Addresses(xs + ys), Addresses(xs) + Addresses(ys);
    assert |l| == |r|;
    forall k | 0 <= k < |l| ensures l[k] == r[k] {
      if k < |xs| {
        assert (xs + ys)[k] == xs[k];
      } else {
        assert (xs + ys)[k] == ys[k - |xs|];
      }
    }
  }

  /** One more outer line of the walk appends that line's addresses. */
  lemma BlockStep(out: seq<CellAddress>, line: seq<CellAddress>, o0: int, o: int, i0: int, i1: int, order: Order)
    requires o0 <= o
    requires out == Addresses(Block(o0, o - 1, i0, i1, order))
    requires line == Addresses(Line(o, i0, i1, order))
    ensures out + line == Addresses(Block(o0, o, i0, i1, order))
  {
    AddressesAppend(Block(o0, o - 1, i0, i1, order), Line(o, i0, i1, order));
  }

  lemma FormatPair(p: (int, int))
    ensures p.0 < 0 || p.1 < 0 ==> FormatAddress(p.0, p.1, false, false) == Err("Negative indices")
    ensures p.0 >= 0 && p.1 >= 0 ==> FormatAddress(p.0, p.1, false, false) == Ok(AddressOf(p))
  {
  }

  /** One more inner step of the walk appends that cell's address. */
  lemma LineStep(out: seq<CellAddress>, f: CellAddress, o: int, i0: int, i: int, order: Order)
    requires i0 <= i
    requires out == Addresses(Line(o, i0, i - 1, order))
    requires f == AddressOf(Pair(o, i, order))
    ensures out + [f] == Addresses(Line(o, i0, i, order))
  {
    AddressesAppend(Line(o, i0, i - 1, order), [Pair(o, i, order)]);
  }


  /** The addresses iterateRange yields for two corners: a failed parse of
      either corner, or a row 0 (row index -1) in the rectangle, is an error. */
  function RangeAddresses(start: CellAddress, end: CellAddress, order: Order): Result<seq<CellAddress>>
  {
    var a :- ParseAddress(start);
    var b :- ParseAddress(end);
    if Min(a.row, b.row) < 0 then Err("Negative indices")
    else Ok(Addresses(RangeCoords(a, b, order)))
  }

  lemma RangeCoordsFacts(a: AddressParts, b: AddressParts, order: Order)
    ensures var ps := RangeCoords(a, b, order);
            && Ascending(ps, order)
            && forall p :: p in ps <==> (Min(a.col, b.col) <= p.0 <= Max(a.col, b.col)
                                         && Min(a.row, b.row) <= p.1 <= Max(a.row, b.row))
  {
    var minCol, maxCol := Min(a.col, b.col), Max(a.col, b.col);
    var minRow, maxRow := Min(a.row, b.row), Max(a.row, b.row);
    if order == ColMajor {
      BlockFacts(minCol, maxCol, minRow, maxRow, order);
    } else {
      BlockFacts(minRow, maxRow, minCol, maxCol, order);
    }
  }

  lemma RangeCoordsLength(a: AddressParts, b: AddressParts, order: Order)
    ensures |RangeCoords(a, b, order)|
            == (Max(a.col, b.col) - Min(a.col, b.col) + 1) * (Max(a.row, b.row) - Min(a.row, b.row) + 1)
  {
    var minCol, maxCol := Min(a.col, b.col), Max(a.col, b.col);
    var minRow, maxRow := Min(a.row, b.row), Max(a.row, b.row);
    if order == ColMajor {
      BlockLength(minCol, maxCol, minRow, maxRow, order);
    } else {
      BlockLength(minRow, maxRow, minCol, maxCol, order);
      assert (maxRow - minRow + 1) * (maxCol - minCol + 1) == (maxCol - minCol + 1) * (maxRow - minRow + 1);
    }
  }


  /** The inner loop of iterateRange (lib/address.ts:72-84): one column (or,
      in row-major order, one row) of the rectangle, all of whose cells have
      non-negative indices. */
  method WalkLine(o: int, i0: int, i1: int, order: Order) returns (out: seq<CellAddress>)
    requires o >= 0 && 0 <= i0 <= i1
    ensures out == Addresses(Line(o, i0, i1, order))
  {
    out := [];
    var i := i0;
    while i <= i1
      invariant i0 <= i <= i1 + 1
      invariant out == Addresses(Line(o, i0, i - 1, order))
    {
      var p := Pair(o, i, order);
      var f := FormatAddress(p.0, p.1, false, false);
      FormatPair(p);
      LineStep(out, f.value, o, i0, i, order);
      out := out + [f.value];
      i := i + 1;
    }
  }

  /** The column-major loops of iterateRange (lib/address.ts:72-77): columns
      minCol..maxCol, and in each the rows minRow..maxRow. */
  method WalkColumns(minCol: int, maxCol: int, minRow: int, maxRow: int) returns (out: seq<CellAddress>)
    requires 0 <= minCol <= maxCol && 0 <= minRow <= maxRow
    ensures out == Addresses(Block(minCol, maxCol, minRow, maxRow, ColMajor))
  {
    out := [];
    var c := minCol;
    while c <= maxCol
      invariant minCol <= c <= maxCol + 1
      invariant out == Addresses(Block(minCol, c - 1, minRow, maxRow, ColMajor))
    {
      var line := WalkLine(c, minRow, maxRow, ColMajor);
      BlockStep(out, line, minCol, c, minRow, maxRow, ColMajor);
      out := out + line;
      c := c + 1;
    }
  }

  /** The row-major loops of iterateRange (lib/address.ts:78-84): rows
      minRow..maxRow, and in each the columns minCol..maxCol. */
  method WalkRows(minCol: int, maxCol: int, minRow: int, maxRow: int) returns (out: seq<CellAddress>)
    requires 0 <= minCol <= maxCol && 0 <= minRow <= maxRow
    ensures out == Addresses(Block(minRow, maxRow, minCol, maxCol, RowMajor))
  {
    out := [];
    var rw := minRow;
    while rw <= maxRow
      invariant minRow <= rw <= maxRow + 1
      invariant out == Addresses(Block(minRow, rw - 1, minCol, maxCol, RowMajor))
    {
      var line := WalkLine(rw, minCol, maxCol, RowMajor);
      BlockStep(out, line, minRow, rw, minCol, maxCol, RowMajor);
      out := out + line;
      rw := rw + 1;
    }
  }

  /** iterateRange (lib/address.ts:61-85). The generator is driven to completion
      by every caller, so the collected sequence stands for it. Both loop orders
      visit (minCol, minRow) first, so when minRow is negative (a corner on row
      0) the first formatAddress call throws before anything is yielded; that
      is the only failure after the corners parse, and it is checked up front. */
  method IterateRange(start: CellAddress, end: CellAddress, order: Order) returns (r: Result<seq<CellAddress>>)
    ensures r == RangeAddresses(start, end, order)
  {
    var pa := ParseAddress(start);
    if pa.Err? { return Err(pa.msg); }
    var pb := ParseAddress(end);
    if pb.Err? { return Err(pb.msg); }
    var a, b := pa.value, pb.value;
    ParseColumn(start);
    ParseColumn(end);
    var minCol, maxCol := Min(a.col, b.col), Max(a.col, b.col);
    var minRow, maxRow := Min(a.row, b.row), Max(a.row, b.row);
    if minRow < 0 {
      return Err("Negative indices");
    }
    var out: seq<CellAddress>;
    if order == ColMajor {
      out := WalkColumns(minCol, maxCol, minRow, maxRow);
    } else {
      out := WalkRows(minCol, maxCol, minRow, maxRow);
    }
    return Ok(out);
  }

  /** getCellsInRange (lib/address.ts:87-92): the column-major walk, collected. */
  method GetCellsInRange(start: CellAddress, end: CellAddress) returns (r: Result<seq<CellAddress>>)
    ensures r == RangeAddresses(start, end, ColMajor)
  {
    r := IterateRange(start, end, ColMajor);
  }

  /** When both corners parse, which one comes first does not matter. */
  lemma RangeSymmetric(start: CellAddress, end: CellAddress, order: Order)
    requires ParseAddress(start).Ok? && ParseAddress(end).Ok?
    ensures RangeAddresses(start, end, order) == RangeAddresses(end, start, order)
  {
    var a, b := ParseAddress(start).value, ParseAddress(end).value;
    assert Min(a.col, b.col) == Min(b.col, a.col) && Max(a.col, b.col) == Max(b.col, a.col);
    assert Min(a.row, b.row) == Min(b.row, a.row) && Max(a.row, b.row) == Max(b.row, a.row);
    assert RangeCoords(a, b, order) == RangeCoords(b, a, order);
  }

  /** The k-th address yielded is the k-th pair of the walk, without `$` markers. */
  lemma RangeAddressAt(start: CellAddress, end: CellAddress, order: Order, k: nat)
    requires RangeAddresses(start, end, order).Ok?
    requires k < |RangeAddresses(start, end, order).value|
    ensures var ps := RangeCoords(ParseAddress(start).value, ParseAddress(end).value, order);
            && |ps| == |RangeAddresses(start, end, order).value|
            && ps[k].0 >= 0 && ps[k].1 >= 0
            && ParseAddress(RangeAddresses(start, end, order).value[k]) == Ok(AddressParts(ps[k].0, ps[k].1, false, false))
  {
    var a, b := ParseAddress(start).value, ParseAddress(end).value;
    var ps := RangeCoords(a, b, order);
    RangeCoordsFacts(a, b, order);
    ParseColumn(start);
    ParseColumn(end);
    assert ps[k] in ps;
    PlainAddressParses(ps[k].0, ps[k].1);
  }

  /** The walk has one address per cell of the rectangle spanned by the corners. */
  lemma RangeCount(start: CellAddress, end: CellAddress, order: Order)
    requires RangeAddresses(start, end, order).Ok?
    ensures var a, b := ParseAddress(start).value, ParseAddress(end).value;
            |RangeAddresses(start, end, order).value|
              == (Max(a.col, b.col) - Min(a.col, b.col) + 1) * (Max(a.row, b.row) - Min(a.row, b.row) + 1)
  {
    RangeCoordsLength(ParseAddress(start).value, ParseAddress(end).value, order);
  }

  /** No address is yielded twice. */
  lemma RangeDistinct(start: CellAddress, end: CellAddress, order: Order)
    requires RangeAddresses(start, end, order).Ok?
    ensures var out := RangeAddresses(start, end, order).value;
            forall i, j :: 0 <= i < j < |out| ==> out[i] != out[j]
  {
    var a, b := ParseAddress(start).value, ParseAddress(end).value;
    var ps := RangeCoords(a, b, order);
    var out := RangeAddresses(start, end, order).value;
    RangeCoordsFacts(a, b, order);
    forall i, j | 0 <= i < j < |out| ensures out[i] != out[j] {
      RangeAddressAt(start, end, order, i);
      RangeAddressAt(start, end, order, j);
      assert KeyLess(ps[i], ps[j], order);
    }
  }

  /** Every cell of the rectangle spanned by the corners is yielded. */
  lemma RangeCovers(start: CellAddress, end: CellAddress, order: Order)
    requires RangeAddresses(start, end, order).Ok?
    ensures var a, b := ParseAddress(start).value, ParseAddress(end).value;
            var out := RangeAddresses(start, end, order).value;
            forall c: nat, rw: nat :: Min(a.col, b.col) <= c <= Max(a.col, b.col) && Min(a.row, b.row) <= rw <= Max(a.row, b.row)
              ==> PlainAddress(c, rw) in out
  {
    var a, b := ParseAddress(start).value, ParseAddress(end).value;
    forall c: nat, rw: nat | Min(a.col, b.col) <= c <= Max(a.col, b.col) && Min(a.row, b.row) <= rw <= Max(a.row, b.row)
      ensures PlainAddress(c, rw) in RangeAddresses(start, end, order).value
    {
      RangeCoversCell(a, b, order, c, rw);
    }
  }

  lemma RangeCoversCell(a: AddressParts, b: AddressParts, order: Order, c: nat, rw: nat)
    requires Min(a.col, b.col) <= c <= Max(a.col, b.col) && Min(a.row, b.row) <= rw <= Max(a.row, b.row)
    ensures PlainAddress(c, rw) in Addresses(RangeCoords(a, b, order))
  {
    var ps := RangeCoords(a, b, order);
    RangeCoordsFacts(a, b, order);
    assert (c, rw) in ps;
    var k :| 0 <= k < |ps| && ps[k] == (c, rw);
    assert Addresses(ps)[k] == PlainAddress(c, rw);
  }

  /** Column-major order ascends by column, then by row within a column;
      row-major order is its transpose, ascending by row, then by column. */
  lemma RangeOrdered(start: CellAddress, end: CellAddress, order: Order, i: nat, j: nat)
    requires RangeAddresses(start, end, order).Ok?
    requires i < j < |RangeAddresses(start, end, order).value|
    ensures var out := RangeAddresses(start, end, order).value;
            ParseAddress(out[i]).Ok? && ParseAddress(out[j]).Ok? &&
            var p, q := ParseAddress(out[i]).value, ParseAddress(out[j]).value;
            order == ColMajor ==> p.col < q.col || (p.col == q.col && p.row < q.row)
    ensures var out := RangeAddresses(start, end, order).value;
            ParseAddress(out[i]).Ok? && ParseAddress(out[j]).Ok? &&
            var p, q := ParseAddress(out[i]).value, ParseAddress(out[j]).value;
            order == RowMajor ==> p.row < q.row || (p.row == q.row && p.col < q.col)
  {
    var a, b := ParseAddress(start).value, ParseAddress(end).value;
    RangeCoordsFacts(a, b, order);
    RangeAddressAt(start, end, order, i);
    RangeAddressAt(start, end, order, j);
  }
}
