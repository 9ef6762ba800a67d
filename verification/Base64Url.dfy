/** The text form of binary nodes: base64 with the URL and filename safe alphabet of RFC 4648
  section 5, without padding as section 3.2 allows.
*/
module Base64Url {
  import opened Wrappers
  import opened Format

  newtype byte = x: int | 0 <= x < 256
  newtype sextet = x: int | 0 <= x < 64

  function Symbol(v: sextet): char {
    if v < 26 then (v as int + 65) as char
    else if v < 52 then (v as int - 26 + 97) as char
    else if v < 62 then (v as int - 52 + 48) as char
    else if v == 62 then '-' else '_'
  }

  function SymbolValue(c: char): Option<sextet> {
    if 'A' <= c <= 'Z' then Some((c as int - 65) as sextet)
    else if 'a' <= c <= 'z' then Some((c as int - 97 + 26) as sextet)
    else if '0' <= c <= '9' then Some((c as int - 48 + 52) as sextet)
    else if c == '-' then Some(62)
    else if c == '_' then Some(63)
    else None
  }

  function Symbols(vs: seq<sextet>): string {
    seq(|vs|, i requires 0 <= i < |vs| => Symbol(vs[i]))
  }

  /** Three bytes make four sextets; a remainder of one or two makes two or three. */
  function ToSextets(bs: seq<byte>): seq<sextet> {
    if |bs| == 0 then []
    else if |bs| == 1 then
      var a := bs[0] as int;
      [(a / 4) as sextet, (a % 4 * 16) as sextet]
    else if |bs| == 2 then
      var a, b := bs[0] as int, bs[1] as int;
      [(a / 4) as sextet, (a % 4 * 16 + b / 16) as sextet, (b % 16 * 4) as sextet]
    else
      var a, b, c := bs[0] as int, bs[1] as int, bs[2] as int;
      [(a / 4) as sextet, (a % 4 * 16 + b / 16) as sextet,
       (b % 16 * 4 + c / 64) as sextet, (c % 64) as sextet] + ToSextets(bs[3..])
  }

  /** The decoder ignores the bits of the last sextet that belong to no byte. */
  function FromSextets(vs: seq<sextet>): Option<seq<byte>> {
    if |vs| == 0 then Some([])
    else if |vs| == 1 then None
    else
      var a := (vs[0] as int * 4 + vs[1] as int / 16) as byte;
      if |vs| == 2 then Some([a]) else
      var b := (vs[1] as int % 16 * 16 + vs[2] as int / 4) as byte;
      if |vs| == 3 then Some([a, b]) else
      var c := (vs[2] as int % 4 * 64 + vs[3] as int) as byte;
      match FromSextets(vs[4..])
      case None => None
      case Some(rest) => Some([a, b, c] + rest)
  }

  function Values(s: string): Option<seq<sextet>> {
    if s == [] then Some([]) else
    match (SymbolValue(s[0]), Values(s[1..]))
    case (Some(v), Some(vs)) => Some([v] + vs)
    case _ => None
  }

  /** The decoder skips line breaks anywhere in its input. */
  function WithoutBreaks(s: string): string {
    if s == [] then [] else
    (if s[0] == '\n' || s[0] == '\r' then [] else [s[0]]) + WithoutBreaks(s[1..])
  }

  function Encode(bs: seq<byte>): string {
    Symbols(ToSextets(bs))
  }

  function Decode(s: string): Option<seq<byte>> {
    match Values(WithoutBreaks(s))
    case None => None
    case Some(vs) => FromSextets(vs)
  }

  lemma SymbolRoundTrip(v: sextet)
    ensures SymbolValue(Symbol(v)) == Some(v)
    ensures !IsSpace(Symbol(v))
  {}

  lemma {:induction false} SymbolsRoundTrip(vs: seq<sextet>)
    ensures WithoutBreaks(Symbols(vs)) == Symbols(vs) && Values(Symbols(vs)) == Some(vs)
    decreases |vs|
  {
    if vs != [] {
      SymbolRoundTrip(vs[0]);
      assert Symbols(vs)[1..] == Symbols(vs[1..]);
      SymbolsRoundTrip(vs[1..]);
      assert vs == [vs[0]] + vs[1..];
    }
  }

  lemma BitsBack(a: int, b: int, c: int)
    requires 0 <= a < 256 && 0 <= b < 256 && 0 <= c < 256
    ensures a / 4 * 4 + (a % 4 * 16 + b / 16) / 16 == a
    ensures (a % 4 * 16 + b / 16) % 16 * 16 + (b % 16 * 4 + c / 64) / 4 == b
    ensures (b % 16 * 4 + c / 64) % 4 * 64 + c % 64 == c
  {}

  lemma FourSextets(vs: seq<sextet>, a: byte, b: byte, c: byte, rest: seq<byte>)
    requires |vs| >= 4 && FromSextets(vs[4..]) == Some(rest)
    requires vs[0] as int == a as int / 4 && vs[1] as int == a as int % 4 * 16 + b as int / 16
    requires vs[2] as int == b as int % 16 * 4 + c as int / 64 && vs[3] as int == c as int % 64
    ensures FromSextets(vs) == Some([a, b, c] + rest)
  {
    BitsBack(a as int, b as int, c as int);
  }

  lemma {:induction false} SextetsRoundTrip(bs: seq<byte>)
    ensures FromSextets(ToSextets(bs)) == Some(bs)
    decreases |bs|
  {
    if |bs| == 1 {
      BitsBack(bs[0] as int, 0, 0);
      assert bs == [bs[0]];
    } else if |bs| == 2 {
      BitsBack(bs[0] as int, bs[1] as int, 0);
      assert bs == [bs[0], bs[1]];
    } else if |bs| >= 3 {
      var vs := ToSextets(bs);
      SextetsRoundTrip(bs[3..]);
      assert vs[4..] == ToSextets(bs[3..]) && |vs| >= 4;
      FourSextets(vs, bs[0], bs[1], bs[2], bs[3..]);
      assert bs == [bs[0], bs[1], bs[2]] + bs[3..];
    }
  }

  lemma {:induction false} SextetCount(bs: seq<byte>)
    ensures |ToSextets(bs)| == (4 * |bs| + 2) / 3
    decreases |bs|
  {
    if |bs| >= 3 {
      SextetCount(bs[3..]);
    }
  }

  /** For byte strings of every length the text decodes to the same bytes, has four characters
    for every three bytes, and contains no space, so it scans as one field unless it is empty. */
  lemma EncodedRoundTrip(bs: seq<byte>)
    ensures Decode(Encode(bs)) == Some(bs)
    ensures |Encode(bs)| == (4 * |bs| + 2) / 3
    ensures IsWord(Encode(bs)) <==> bs != []
  {
    var vs := ToSextets(bs);
    SymbolsRoundTrip(vs);
    SextetsRoundTrip(bs);
    SextetCount(bs);
    forall i | 0 <= i < |vs| ensures !IsSpace(Symbols(vs)[i]) {
      SymbolRoundTrip(vs[i]);
    }
  }

  // ---------- What the text is ----------

  const UPPER := "ABCDEFGHIJKLMNOPQRSTUVWXYZ"
  const LOWER := "abcdefghijklmnopqrstuvwxyz"
  const DIGITS := "0123456789"

  /** The alphabet is that of RFC 4648 section 5, written out. */
  lemma AlphabetSpelled()
    ensures Symbols(seq(26, i requires 0 <= i < 26 => i as sextet)) == UPPER
    ensures Symbols(seq(26, i requires 0 <= i < 26 => (i + 26) as sextet)) == LOWER
    ensures Symbols(seq(10, i requires 0 <= i < 10 => (i + 52) as sextet)) == DIGITS
    ensures Symbol(62) == '-' && Symbol(63) == '_'
  {
    assert UPPER == seq(26, i requires 0 <= i < 26 => (i + 65) as char);
    assert LOWER == seq(26, i requires 0 <= i < 26 => (i + 97) as char);
    assert DIGITS == seq(10, i requires 0 <= i < 10 => (i + 48) as char);
  }

  /** The number that digits spell after those that spell `high`, the most significant first. */
  function BytesSpell(high: nat, bs: seq<byte>): nat
    decreases |bs|
  {
    if bs == [] then high else BytesSpell(high * 256 + bs[0] as int, bs[1..])
  }

  function SextetsSpell(high: nat, vs: seq<sextet>): nat
    decreases |vs|
  {
    if vs == [] then high else SextetsSpell(high * 64 + vs[0] as int, vs[1..])
  }

  /** Two to the number of bits that fill up the last sextet. */
  function Fill(bytes: nat): nat {
    if bytes % 3 == 1 then 16 else if bytes % 3 == 2 then 4 else 1
  }

  function Higher(high: nat, bs: seq<byte>): nat
    requires |bs| >= 3
  {
    ((high * 256 + bs[0] as int) * 256 + bs[1] as int) * 256 + bs[2] as int
  }

  lemma ThreeSpelled(high: nat, bs: seq<byte>)
    requires |bs| >= 3
    ensures BytesSpell(high, bs) == BytesSpell(Higher(high, bs), bs[3..])
  {
    assert bs[1..][1..] == bs[2..] && bs[2..][1..] == bs[3..];
    var h := high * 256 + bs[0] as int;
    var i := h * 256 + bs[1] as int;
    assert BytesSpell(high, bs) == BytesSpell(h, bs[1..]);
    assert BytesSpell(h, bs[1..]) == BytesSpell(i, bs[2..]);
    assert BytesSpell(i, bs[2..]) == BytesSpell(i * 256 + bs[2] as int, bs[3..]);
  }

  lemma FourSpelled(high: nat, vs: seq<sextet>)
    requires |vs| >= 4
    ensures var u, v, w, x := vs[0] as int, vs[1] as int, vs[2] as int, vs[3] as int;
            SextetsSpell(high, vs) == SextetsSpell((((high * 64 + u) * 64 + v) * 64 + w) * 64 + x, vs[4..])
  {
    assert vs[1..][1..] == vs[2..] && vs[2..][1..] == vs[3..] && vs[3..][1..] == vs[4..];
    var h := high * 64 + vs[0] as int;
    var i := h * 64 + vs[1] as int;
    var j := i * 64 + vs[2] as int;
    assert SextetsSpell(high, vs) == SextetsSpell(h, vs[1..]);
    assert SextetsSpell(h, vs[1..]) == SextetsSpell(i, vs[2..]);
    assert SextetsSpell(i, vs[2..]) == SextetsSpell(j, vs[3..]);
    assert SextetsSpell(j, vs[3..]) == SextetsSpell(j * 64 + vs[3] as int, vs[4..]);
  }

  lemma SameTwentyFourBits(a: nat, b: nat, c: nat)
    ensures ((a / 4 * 64 + (a % 4 * 16 + b / 16)) * 64 + (b % 16 * 4 + c / 64)) * 64 + c % 64
         == (a * 256 + b) * 256 + c
  {}

  lemma GroupSpelled(high: nat, bs: seq<byte>)
    requires |bs| >= 3
    ensures SextetsSpell(high, ToSextets(bs)) == SextetsSpell(Higher(high, bs), ToSextets(bs[3..]))
  {
    var vs := ToSextets(bs);
    FourSpelled(high, vs);
    SameTwentyFourBits(bs[0] as int, bs[1] as int, bs[2] as int);
    assert vs[4..] == ToSextets(bs[3..]);
  }

  /** The text spells the bits of the bytes in order, the most significant first, six to a character,
    filled up with zeros: as numbers, the sextets are the bytes shifted by the filling. */
  lemma {:induction false} SextetsSpellBytes(high: nat, bs: seq<byte>)
    ensures SextetsSpell(high, ToSextets(bs)) == BytesSpell(high, bs) * Fill(|bs|)
    decreases |bs|
  {
    if |bs| == 1 {
      LastOne(high, bs);
    } else if |bs| == 2 {
      LastTwo(high, bs);
    } else if |bs| >= 3 {
      GroupSpelled(high, bs);
      ThreeSpelled(high, bs);
      SextetsSpellBytes(Higher(high, bs), bs[3..]);
    }
  }

  lemma LastOne(high: nat, bs: seq<byte>)
    requires |bs| == 1
    ensures SextetsSpell(high, ToSextets(bs)) == BytesSpell(high, bs) * 16
  {
    var vs := ToSextets(bs);
    assert bs[1..] == [] && vs[1..] == [vs[1]] && vs[1..][1..] == [];
    assert SextetsSpell(high * 64 + vs[0] as int, vs[1..]) == (high * 64 + vs[0] as int) * 64 + vs[1] as int;
  }

  lemma LastTwo(high: nat, bs: seq<byte>)
    requires |bs| == 2
    ensures SextetsSpell(high, ToSextets(bs)) == BytesSpell(high, bs) * 4
  {
    var vs := ToSextets(bs);
    assert bs[1..] == [bs[1]] && bs[1..][1..] == [];
    assert vs[1..] == [vs[1], vs[2]] && vs[1..][1..] == [vs[2]] && vs[1..][1..][1..] == [];
    var h := high * 64 + vs[0] as int;
    assert SextetsSpell(h, vs[1..]) == SextetsSpell(h * 64 + vs[1] as int, [vs[2]])
        == (h * 64 + vs[1] as int) * 64 + vs[2] as int;
    assert BytesSpell(high, bs) == BytesSpell(high * 256 + bs[0] as int, [bs[1]])
        == (high * 256 + bs[0] as int) * 256 + bs[1] as int;
  }

  // ---------- What is decoded ----------

  predicate InAlphabet(c: char) {
    'A' <= c <= 'Z' || 'a' <= c <= 'z' || '0' <= c <= '9' || c == '-' || c == '_'
  }

  lemma {:induction false} ValuesDefined(s: string)
    ensures Values(s).Some? <==> forall i :: 0 <= i < |s| ==> InAlphabet(s[i])
    ensures Values(s).Some? ==> |Values(s).value| == |s|
    decreases |s|
  {
    if s != [] {
      ValuesDefined(s[1..]);
      assert s == [s[0]] + s[1..];
    }
  }

  lemma {:induction false} SextetsDefined(vs: seq<sextet>)
    ensures FromSextets(vs).Some? <==> |vs| % 4 != 1
    decreases |vs|
  {
    if |vs| >= 4 {
      SextetsDefined(vs[4..]);
    }
  }

  /** Text decodes exactly when, line breaks aside, its characters are of the alphabet and no single
    one is left over. */
  lemma DecodeDefined(s: string)
    ensures var t := WithoutBreaks(s);
            Decode(s).Some? <==> |t| % 4 != 1 && forall i :: 0 <= i < |t| ==> InAlphabet(t[i])
  {
    var t := WithoutBreaks(s);
    ValuesDefined(t);
    if Values(t).Some? {
      SextetsDefined(Values(t).value);
    }
  }

  lemma {:induction false} BreaksIgnored(a: string, b: string, c: char)
    requires c == '\n' || c == '\r'
    ensures WithoutBreaks(a + ([c] + b)) == WithoutBreaks(a + b)
    ensures Decode(a + ([c] + b)) == Decode(a + b)
    decreases |a|
  {
    if a == [] {
      assert a + ([c] + b) == [c] + b && ([c] + b)[1..] == b && a + b == b;
    } else {
      assert (a + ([c] + b))[1..] == a[1..] + ([c] + b) && (a + b)[1..] == a[1..] + b;
      BreaksIgnored(a[1..], b, c);
    }
  }
}
