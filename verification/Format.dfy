/** The part of formatted printing and scanning that the wire protocol uses. One format drives
  both directions: Print writes arguments into it, Scan reads them back from a stream.
*/
module Format {

  /** Spaces and newlines of a format stand alone in every format used, so the rules for runs of
    them are not needed. */
  datatype Piece = Space | Newline | Literal(c: char) | Number | Word

  datatype Arg = Num(n: int) | Text(s: string)

  datatype Scanned = Scanned(args: seq<Arg>, rest: string) | Mismatch

  const MIN_INT := -0x8000_0000_0000_0000
  const MAX_INT := 0x7fff_ffff_ffff_ffff

  predicate IsSpace(c: char) {
    var u := c as int;
    || u == 0x20 || 0x09 <= u <= 0x0d || u == 0x85 || u == 0xa0 || u == 0x1680
    || 0x2000 <= u <= 0x200a || u == 0x2028 || u == 0x2029 || u == 0x202f || u == 0x205f || u == 0x3000
  }

  predicate IsDigit(c: char) {
    '0' <= c <= '9'
  }

  predicate IsWord(s: string) {
    s != [] && forall i :: 0 <= i < |s| ==> !IsSpace(s[i])
  }

  // ---------- Numbers ----------

  function Decimal(n: nat): string {
    if n < 10 then [(n + 48) as char] else Decimal(n / 10) + [(n % 10 + 48) as char]
  }

  function Signed(n: int): string {
    if n < 0 then "-" + Decimal(-n) else Decimal(n)
  }

  function DigitsValue(s: string): int {
    if s == [] then 0 else DigitsValue(s[..|s| - 1]) * 10 + (s[|s| - 1] as int - 48)
  }

  function DigitCount(s: string): (k: nat)
    ensures k <= |s|
  {
    if s == [] || !IsDigit(s[0]) then 0 else 1 + DigitCount(s[1..])
  }

  function WordLength(s: string): (k: nat)
    ensures k <= |s|
  {
    if s == [] || IsSpace(s[0]) then 0 else 1 + WordLength(s[1..])
  }

  /** Drops spaces up to a newline, which only a newline of the format may match. */
  function DropSpaces(s: string): (t: string)
    ensures |t| <= |s|
  {
    if s != [] && IsSpace(s[0]) && s[0] != '\n' then DropSpaces(s[1..]) else s
  }

  function ScanDigits(u: string): Scanned {
    var k := DigitCount(u);
    if k == 0 then Mismatch else Scanned([Num(DigitsValue(u[..k]))], u[k..])
  }

  /** A number: optional sign, at least one digit, and a value that fits 64 bits. */
  function ScanNumber(s: string): Scanned {
    var t := DropSpaces(s);
    var signed := t != [] && (t[0] == '-' || t[0] == '+');
    var digits := ScanDigits(if signed then t[1..] else t);
    if digits.Mismatch? then Mismatch else
    var v := if signed && t[0] == '-' then -digits.args[0].n else digits.args[0].n;
    if MIN_INT <= v <= MAX_INT then Scanned([Num(v)], digits.rest) else Mismatch
  }

  /** The characters up to the next space of any kind. */
  function ScanWord(s: string): Scanned {
    var t := DropSpaces(s);
    var k := WordLength(t);
    if k == 0 then Mismatch else Scanned([Text(t[..k])], t[k..])
  }

  // ---------- Formats ----------

  function ScanPiece(p: Piece, s: string): Scanned {
    match p
    case Space =>
      if s == [] || (IsSpace(s[0]) && s[0] != '\n') then Scanned([], DropSpaces(s)) else Mismatch
    case Newline =>
      var t := DropSpaces(s);
      if t == [] then Scanned([], []) else if t[0] == '\n' then Scanned([], t[1..]) else Mismatch
    case Literal(c) =>
      if s != [] && s[0] == c then Scanned([], s[1..]) else Mismatch
    case Number => ScanNumber(s)
    case Word => ScanWord(s)
  }

  function Scan(f: seq<Piece>, s: string): Scanned {
    if f == [] then Scanned([], s) else
    var first := ScanPiece(f[0], s);
    if first.Mismatch? then Mismatch else
    var others := Scan(f[1..], first.rest);
    if others.Mismatch? then Mismatch else Scanned(first.args + others.args, others.rest)
  }

  predicate TakesArg(p: Piece) {
    p.Number? || p.Word?
  }

  predicate Fits(p: Piece, a: Arg) {
    (p.Number? && a.Num?) || (p.Word? && a.Text?)
  }

  /** The arguments are as many and of the kinds that the format asks for. */
  predicate Typed(f: seq<Piece>, args: seq<Arg>) {
    if f == [] then args == []
    else if TakesArg(f[0]) then args != [] && Fits(f[0], args[0]) && Typed(f[1..], args[1..])
    else Typed(f[1..], args)
  }

  function Render(a: Arg): string {
    match a
    case Num(n) => Signed(n)
    case Text(s) => s
  }

  /** What one piece prints, given the arguments still to print. */
  function PieceText(p: Piece, args: seq<Arg>): string
    requires TakesArg(p) ==> args != []
  {
    match p
    case Space => " "
    case Newline => "\n"
    case Literal(c) => [c]
    case _ => Render(args[0])
  }

  function Print(f: seq<Piece>, args: seq<Arg>): string
    requires Typed(f, args)
  {
    if f == [] then [] else
    PieceText(f[0], args) + Print(f[1..], if TakesArg(f[0]) then args[1..] else args)
  }

  /** Arguments that scanning can tell apart from their surroundings. */
  predicate Scannable(a: Arg) {
    match a
    case Num(n) => MIN_INT <= n <= MAX_INT
    case Text(s) => IsWord(s)
  }

  /** `q` begins with a character that cannot belong to an argument of `p`. */
  predicate Ends(p: Piece, q: Piece) {
    match q
    case Space => true
    case Newline => true
    case Literal(c) => p.Number? && !IsDigit(c)
    case _ => false
  }

  /** Every argument is followed by a piece that ends it, and every space by something that does
    not begin with a space. */
  predicate Delimited(f: seq<Piece>) {
    forall i :: 0 <= i < |f| ==> DelimitedAt(f, i)
  }

  predicate DelimitedAt(f: seq<Piece>, i: nat)
    requires i < |f|
  {
    && (TakesArg(f[i]) ==> i + 1 < |f| && Ends(f[i], f[i + 1]))
    && (f[i].Space? ==> i + 1 < |f| && (TakesArg(f[i + 1]) || (f[i + 1].Literal? && !IsSpace(f[i + 1].c))))
  }

  // ---------- Round trip ----------

  lemma {:induction false} DecimalDigits(n: nat)
    ensures Decimal(n) != [] && forall i :: 0 <= i < |Decimal(n)| ==> IsDigit(Decimal(n)[i])
    ensures DigitsValue(Decimal(n)) == n
    decreases n
  {
    var d := Decimal(n);
    if n < 10 {
      assert d[..|d| - 1] == [];
    } else {
      DecimalDigits(n / 10);
      assert d[..|d| - 1] == Decimal(n / 10);
    }
  }

  lemma {:induction false} DigitsStop(d: string, rest: string)
    requires forall i :: 0 <= i < |d| ==> IsDigit(d[i])
    requires rest != [] ==> !IsDigit(rest[0])
    ensures DigitCount(d + rest) == |d|
    decreases |d|
  {
    if d == [] {
      assert d + rest == rest;
    } else {
      assert (d + rest)[1..] == d[1..] + rest;
      DigitsStop(d[1..], rest);
    }
  }

  lemma {:induction false} WordStops(w: string, rest: string)
    requires forall i :: 0 <= i < |w| ==> !IsSpace(w[i])
    requires rest != [] ==> IsSpace(rest[0])
    ensures WordLength(w + rest) == |w|
    decreases |w|
  {
    if w == [] {
      assert w + rest == rest;
    } else {
      assert (w + rest)[1..] == w[1..] + rest;
      WordStops(w[1..], rest);
    }
  }

  lemma ScanDigitsBack(d: string, rest: string)
    requires d != [] && (forall i :: 0 <= i < |d| ==> IsDigit(d[i])) && (rest != [] ==> !IsDigit(rest[0]))
    ensures ScanDigits(d + rest) == Scanned([Num(DigitsValue(d))], rest)
  {
    DigitsStop(d, rest);
    assert (d + rest)[..|d|] == d && (d + rest)[|d|..] == rest;
  }

  lemma DigitsStandFirst(d: string, rest: string)
    requires d != [] && IsDigit(d[0])
    ensures DropSpaces(d + rest) == d + rest
    ensures DropSpaces("-" + d + rest) == "-" + d + rest && ("-" + d + rest)[1..] == d + rest
  {
    assert (d + rest)[0] == d[0];
    assert ("-" + d + rest)[0] == '-';
  }

  lemma ScanPrintedNumber(n: int, rest: string)
    requires MIN_INT <= n <= MAX_INT && (rest != [] ==> !IsDigit(rest[0]))
    ensures ScanNumber(Signed(n) + rest) == Scanned([Num(n)], rest)
  {
    var a := if n < 0 then -n else n;
    DecimalDigits(a);
    ScanDigitsBack(Decimal(a), rest);
    DigitsStandFirst(Decimal(a), rest);
    assert (Decimal(a) + rest)[0] == Decimal(a)[0];
  }

  lemma ScanPrintedWord(w: string, rest: string)
    requires IsWord(w) && (rest != [] ==> IsSpace(rest[0]))
    ensures ScanWord(w + rest) == Scanned([Text(w)], rest)
  {
    WordStops(w, rest);
    assert (w + rest)[0] == w[0];
    assert (w + rest)[..|w|] == w && (w + rest)[|w|..] == rest;
  }

  /** `t` may follow a piece that `q` follows in the format. */
  predicate StartsLike(q: Piece, t: string) {
    t != [] &&
    match q
    case Space => t[0] == ' '
    case Newline => t[0] == '\n'
    case Literal(c) => t[0] == c
    case _ => !IsSpace(t[0])
  }

  lemma PrintedStart(f: seq<Piece>, args: seq<Arg>, rest: string)
    requires f != [] && Typed(f, args) && forall a :: a in args ==> Scannable(a)
    ensures StartsLike(f[0], Print(f, args) + rest)
  {
    if TakesArg(f[0]) {
      assert args[0] in args;
      match args[0]
      case Num(n) => DecimalDigits(if n < 0 then -n else n);
      case Text(s) =>
    }
  }

  lemma ScanArgument(p: Piece, q: Piece, a: Arg, tail: string)
    requires TakesArg(p) && Fits(p, a) && Scannable(a) && Ends(p, q) && StartsLike(q, tail)
    ensures ScanPiece(p, Render(a) + tail) == Scanned([a], tail)
  {
    match a
    case Num(n) => ScanPrintedNumber(n, tail);
    case Text(s) => ScanPrintedWord(s, tail);
  }

  lemma ScanSpace(q: Piece, tail: string)
    requires (TakesArg(q) || (q.Literal? && !IsSpace(q.c))) && StartsLike(q, tail)
    ensures ScanPiece(Space, " " + tail) == Scanned([], tail)
  {
    assert !IsSpace(tail[0]) && DropSpaces(tail) == tail;
    assert (" " + tail)[1..] == tail;
    assert DropSpaces(" " + tail) == tail;
  }

  lemma ScanFirst(f: seq<Piece>, args: seq<Arg>, tail: string)
    requires f != [] && DelimitedAt(f, 0) && (|f| > 1 ==> StartsLike(f[1], tail))
    requires TakesArg(f[0]) ==> args != [] && Fits(f[0], args[0]) && Scannable(args[0])
    ensures ScanPiece(f[0], PieceText(f[0], args) + tail)
         == Scanned(if TakesArg(f[0]) then [args[0]] else [], tail)
  {
    match f[0]
    case Space => ScanSpace(f[1], tail);
    case Newline =>
    case Literal(c) =>
    case _ => ScanArgument(f[0], f[1], args[0], tail);
  }

  lemma ScanOn(f: seq<Piece>, s: string, first: seq<Arg>, tail: string, others: seq<Arg>, rest: string)
    requires f != [] && ScanPiece(f[0], s) == Scanned(first, tail)
    requires Scan(f[1..], tail) == Scanned(others, rest)
    ensures Scan(f, s) == Scanned(first + others, rest)
  {}

  lemma PrintOn(f: seq<Piece>, args: seq<Arg>, rest: string)
    requires f != [] && Typed(f, args)
    ensures Print(f, args) + rest
         == PieceText(f[0], args) + (Print(f[1..], if TakesArg(f[0]) then args[1..] else args) + rest)
  {
    var text, more := PieceText(f[0], args), Print(f[1..], if TakesArg(f[0]) then args[1..] else args);
    assert Print(f, args) == text + more;
    assert (text + more) + rest == text + (more + rest);
  }

  lemma DelimitedTail(f: seq<Piece>)
    requires f != [] && Delimited(f)
    ensures Delimited(f[1..]) && DelimitedAt(f, 0)
  {
    forall i | 0 <= i < |f[1..]| ensures DelimitedAt(f[1..], i) {
      assert DelimitedAt(f, i + 1);
    }
  }

  lemma RoundTripFirst(f: seq<Piece>, args: seq<Arg>, args': seq<Arg>, rest: string)
    requires f != [] && Delimited(f) && Typed(f, args) && forall a :: a in args ==> Scannable(a)
    requires args' == if TakesArg(f[0]) then args[1..] else args
    requires Scan(f[1..], Print(f[1..], args') + rest) == Scanned(args', rest)
    ensures Scan(f, Print(f, args) + rest) == Scanned(args, rest)
  {
    var tail := Print(f[1..], args') + rest;
    DelimitedTail(f);
    if f[1..] != [] {
      PrintedStart(f[1..], args', rest);
    }
    assert args != [] ==> args[0] in args;
    ScanFirst(f, args, tail);
    PrintOn(f, args, rest);
    var first := if TakesArg(f[0]) then [args[0]] else [];
    ScanOn(f, Print(f, args) + rest, first, tail, args', rest);
    assert first + args' == args;
  }

  /** Printing then scanning, in front of any further input: the arguments come back and exactly
    the printed characters are consumed. */
  lemma {:induction false} RoundTrip(f: seq<Piece>, args: seq<Arg>, rest: string)
    requires Delimited(f) && Typed(f, args) && forall a :: a in args ==> Scannable(a)
    ensures Scan(f, Print(f, args) + rest) == Scanned(args, rest)
    decreases |f|
  {
    if f == [] {
      assert Print(f, args) + rest == rest;
    } else {
      var args' := if TakesArg(f[0]) then args[1..] else args;
      DelimitedTail(f);
      RoundTrip(f[1..], args', rest);
      RoundTripFirst(f, args, args', rest);
    }
  }

  // ---------- What is printed and read ----------

  /** Decimal numbers have no leading zero and their digits stand in the usual order. */
  lemma {:induction false} DecimalPlain(n: nat)
    ensures n > 0 ==> Decimal(n)[0] != '0'
    decreases n
  {
    if n >= 10 {
      DecimalPlain(n / 10);
      DecimalDigits(n / 10);
    }
  }

  lemma NumbersSpelled()
    ensures Signed(0) == "0" && Signed(-90) == "-90" && Signed(1234) == "1234" && Signed(5678) == "5678"
  {
    assert Decimal(9) == "9" && Decimal(90) == "90";
    assert Decimal(1) == "1" && Decimal(12) == "12" && Decimal(123) == "123" && Decimal(1234) == "1234";
    assert Decimal(5) == "5" && Decimal(56) == "56" && Decimal(567) == "567" && Decimal(5678) == "5678";
  }

  /** Only numbers that fit 64 bits are read. */
  lemma ScannedFits(s: string)
    ensures ScanNumber(s).Scanned? ==>
              |ScanNumber(s).args| == 1 && ScanNumber(s).args[0].Num? && Scannable(ScanNumber(s).args[0])
  {}

  /** What is read as a word is a word. */
  lemma ScannedIsWord(s: string)
    ensures ScanWord(s).Scanned? ==>
              |ScanWord(s).args| == 1 && ScanWord(s).args[0].Text? && Scannable(ScanWord(s).args[0])
  {
    WordLengthInside(DropSpaces(s));
  }

  lemma {:induction false} WordLengthInside(s: string)
    ensures forall i :: 0 <= i < WordLength(s) ==> !IsSpace(s[i])
    decreases |s|
  {
    if s != [] && !IsSpace(s[0]) {
      WordLengthInside(s[1..]);
      assert forall i :: 1 <= i < WordLength(s) ==> s[i] == s[1..][i - 1];
    }
  }

  /** Where the format has a space or an argument, the input may have any number of spaces. */
  lemma SpacesSkipped(p: Piece, s: string)
    ensures TakesArg(p) || p.Newline? ==> ScanPiece(p, " " + s) == ScanPiece(p, s)
    ensures ScanPiece(Space, " " + s).Scanned? && ScanPiece(Space, " " + (" " + s)) == ScanPiece(Space, " " + s)
  {
    assert (" " + s)[1..] == s && (" " + (" " + s))[1..] == " " + s;
    assert DropSpaces(" " + s) == DropSpaces(s) == DropSpaces(" " + (" " + s));
  }

  /** A plus sign may precede a number. */
  lemma PlusSkipped(n: nat, rest: string)
    requires n <= MAX_INT && (rest != [] ==> !IsDigit(rest[0]))
    ensures ScanNumber("+" + (Decimal(n) + rest)) == Scanned([Num(n)], rest)
  {
    var s := "+" + (Decimal(n) + rest);
    DecimalDigits(n);
    ScanDigitsBack(Decimal(n), rest);
    assert s[0] == '+' && s[1..] == Decimal(n) + rest && DropSpaces(s) == s;
  }
}
