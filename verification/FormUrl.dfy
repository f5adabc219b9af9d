/** Query strings: application/x-www-form-urlencoded, as section 5 of the URL Standard
    (WHATWG) parses and serializes it. Queries are bytes; every byte printed is ASCII. */
module FormUrl {
  import opened Options
  import opened Utf8
  import Splitting

  const AMPERSAND: Byte := 0x26
  const EQUALS: Byte := 0x3D
  const PLUS: Byte := 0x2B
  const PERCENT: Byte := 0x25
  const SPACE: Byte := 0x20

  datatype Pair = Pair(name: Text, value: Text)

  /** The bytes that stand for themselves: letters, digits and `*-._`. */
  predicate Unreserved(byte: Byte) {
    || 0x30 <= byte <= 0x39 || 0x41 <= byte <= 0x5A || 0x61 <= byte <= 0x7A
    || byte == 0x2A || byte == 0x2D || byte == 0x2E || byte == 0x5F
  }

  function HexDigit(n: nat): Byte
    requires n < 16
  {
    if n < 10 then 0x30 + n else 0x37 + n
  }

  function HexValue(byte: Byte): Option<nat> {
    if 0x30 <= byte <= 0x39 then Some(byte - 0x30)
    else if 0x41 <= byte <= 0x46 then Some(byte - 0x37)
    else if 0x61 <= byte <= 0x66 then Some(byte - 0x57)
    else None
  }

  // ----- Printing -----

  function EscapeByte(byte: Byte): seq<Byte> {
    if byte == SPACE then [PLUS]
    else if Unreserved(byte) then [byte]
    else [PERCENT, HexDigit(byte / 16), HexDigit(byte % 16)]
  }

  function Escape(bytes: seq<Byte>): seq<Byte> {
    if bytes == [] then [] else EscapeByte(bytes[0]) + Escape(bytes[1..])
  }

  function PrintPair(pair: Pair): seq<Byte> {
    Escape(Encode(pair.name)) + [EQUALS] + Escape(Encode(pair.value))
  }

  function PrintedPairs(pairs: seq<Pair>): seq<seq<Byte>> {
    if pairs == [] then [] else [PrintPair(pairs[0])] + PrintedPairs(pairs[1..])
  }

  function Print(pairs: seq<Pair>): seq<Byte> {
    Splitting.Join(PrintedPairs(pairs), AMPERSAND)
  }

  // ----- Parsing -----

  /** Whether the bytes start with `%` and two hexadecimal digits. */
  predicate StartsEscape(bytes: seq<Byte>) {
    |bytes| >= 3 && bytes[0] == PERCENT && HexValue(bytes[1]).Some? && HexValue(bytes[2]).Some?
  }

  function Unescape(bytes: seq<Byte>): seq<Byte> {
    if bytes == [] then []
    else if StartsEscape(bytes) then
      [HexValue(bytes[1]).value * 16 + HexValue(bytes[2]).value] + Unescape(bytes[3..])
    else [if bytes[0] == PLUS then SPACE else bytes[0]] + Unescape(bytes[1..])
  }

  function ParsePair(piece: seq<Byte>): Pair {
    var k := Splitting.IndexOf(piece, EQUALS);
    Pair(Decode(Unescape(piece[..k])), Decode(Unescape(if k < |piece| then piece[k + 1..] else [])))
  }

  function ParsePieces(pieces: seq<seq<Byte>>): seq<Pair> {
    if pieces == [] then []
    else (if pieces[0] == [] then [] else [ParsePair(pieces[0])]) + ParsePieces(pieces[1..])
  }

  function Parse(query: seq<Byte>): seq<Pair> {
    ParsePieces(Splitting.Split(query, AMPERSAND))
  }

  // ----- Round trips -----

  lemma {:induction false} EscapeRoundTrips(bytes: seq<Byte>)
    ensures Unescape(Escape(bytes)) == bytes
  {
    if bytes == [] {
    } else {
      EscapeRoundTrips(bytes[1..]);
    }
  }

  /** Nothing escaped can be taken for a separator, or for the end of the query. */
  lemma {:induction false} EscapedIsInert(bytes: seq<Byte>)
    ensures forall byte | byte in Escape(bytes) :: Unreserved(byte) || byte == PLUS || byte == PERCENT
  {
    if bytes == [] {
    } else {
      EscapedIsInert(bytes[1..]);
    }
  }

  /** A text as it comes back: its surrogates without a partner replaced. */
  function Sound(text: Text): Text {
    Decode(Encode(text))
  }

  function SoundPairs(pairs: seq<Pair>): seq<Pair> {
    if pairs == [] then []
    else [Pair(Sound(pairs[0].name), Sound(pairs[0].value))] + SoundPairs(pairs[1..])
  }

  lemma SplitsAtEquals(name: seq<Byte>, value: seq<Byte>)
    requires EQUALS !in name
    ensures ParsePair(name + [EQUALS] + value) == Pair(Decode(Unescape(name)), Decode(Unescape(value)))
  {
    var piece := name + [EQUALS] + value;
    Splitting.SplitFirst(name, EQUALS, value);
    assert piece[..|name|] == name && piece[|name| + 1..] == value;
  }

  lemma EscapedHasNoSeparator(bytes: seq<Byte>)
    ensures EQUALS !in Escape(bytes) && AMPERSAND !in Escape(bytes)
  {
    EscapedIsInert(bytes);
  }

  lemma PairRoundTrips(pair: Pair)
    ensures ParsePair(PrintPair(pair)) == Pair(Sound(pair.name), Sound(pair.value))
    ensures AMPERSAND !in PrintPair(pair) && PrintPair(pair) != []
  {
    var name, value := Encode(pair.name), Encode(pair.value);
    EscapedHasNoSeparator(name);
    EscapedHasNoSeparator(value);
    EscapeRoundTrips(name);
    EscapeRoundTrips(value);
    SplitsAtEquals(Escape(name), Escape(value));
  }

  lemma {:induction false} PiecesRoundTrip(pairs: seq<Pair>)
    ensures ParsePieces(PrintedPairs(pairs)) == SoundPairs(pairs)
    ensures forall i | 0 <= i < |PrintedPairs(pairs)| :: AMPERSAND !in PrintedPairs(pairs)[i]
  {
    if pairs == [] {
    } else {
      PiecesRoundTrip(pairs[1..]);
      PairRoundTrips(pairs[0]);
      assert PrintedPairs(pairs)[1..] == PrintedPairs(pairs[1..]);
    }
  }

  /** Every list of pairs comes back from its printed form, whatever the texts hold. */
  lemma FormRoundTrips(pairs: seq<Pair>)
    ensures Parse(Print(pairs)) == SoundPairs(pairs)
  {
    if pairs == [] {
      Splitting.SplitWhole<Byte>([], AMPERSAND);
      assert ParsePieces([[]]) == ParsePieces([[]][1..]);
    } else {
      PiecesRoundTrip(pairs);
      Splitting.SplitOfJoin(PrintedPairs(pairs), AMPERSAND);
    }
  }

  // ----- The standard's own terms -----

  ghost function UpperHex(n: nat): char
    requires n < 16
  {
    if n < 10 then '0' + n as char else 'A' + (n - 10) as char
  }

  /** Letters, digits and `*-._` stand for themselves, a space is a plus sign, and every other byte is
      a percent sign and its two upper-case hexadecimal digits. */
  lemma EscapesExactly(c: char)
    requires c as int < 0x100
    ensures EscapeByte(c as int)
         == if 'A' <= c <= 'Z' || 'a' <= c <= 'z' || '0' <= c <= '9' || c == '*' || c == '-' || c == '.' || c == '_'
            then [c as int]
            else if c == ' ' then ['+' as int]
            else ['%' as int, UpperHex(c as int / 16) as int, UpperHex(c as int % 16) as int]
  {
  }

  /** A query is its pairs, name and value escaped with an equals sign between, and ampersands between
      the pairs. */
  lemma PrintsExactly(pairs: seq<Pair>, pair: Pair)
    ensures var printed := Escape(Encode(pair.name)) + ['=' as int] + Escape(Encode(pair.value));
            && Print([pair]) == printed
            && (pairs != [] ==> Print([pair] + pairs) == printed + ['&' as int] + Print(pairs))
  {
    assert [pair][1..] == [] && ([pair] + pairs)[1..] == pairs;
    assert PrintedPairs([pair]) == [PrintPair(pair)];
    if pairs != [] {
      assert PrintedPairs([pair] + pairs) == [PrintPair(pair)] + PrintedPairs(pairs);
      Splitting.JoinUnfold(PrintPair(pair), PrintedPairs(pairs), AMPERSAND);
    }
  }

  // ----- What is parsed -----

  /** Any query at all is parsed so: ampersands part the pairs, and nothing between them is no pair. */
  lemma ParsesExactly(piece: seq<Byte>, rest: seq<Byte>)
    requires AMPERSAND !in piece
    ensures Parse(piece + ['&' as int] + rest) == Parse(piece) + Parse(rest)
    ensures Parse(piece) == if piece == [] then [] else [ParsePair(piece)]
  {
    Splitting.SplitFirst(piece, AMPERSAND, rest);
    Splitting.SplitWhole(piece, AMPERSAND);
    PiecesFirst(piece, Splitting.Split(rest, AMPERSAND));
    PiecesFirst(piece, []);
    assert [piece] + [] == [piece];
  }

  lemma PiecesFirst(piece: seq<Byte>, others: seq<seq<Byte>>)
    ensures ParsePieces([piece] + others) == (if piece == [] then [] else [ParsePair(piece)]) + ParsePieces(others)
  {
    assert ([piece] + others)[1..] == others;
  }

  /** The first equals sign parts the name from the value, and without one there is no value. */
  lemma PairParsesExactly(name: seq<Byte>, value: seq<Byte>)
    requires EQUALS !in name
    ensures ParsePair(name + ['=' as int] + value) == Pair(Decode(Unescape(name)), Decode(Unescape(value)))
    ensures ParsePair(name) == Pair(Decode(Unescape(name)), Decode([]))
  {
    var text := name + [EQUALS] + value;
    Splitting.SplitFirst(name, EQUALS, value);
    assert text[..|name|] == name && text[|name| + 1..] == value;
    Splitting.SplitWhole(name, EQUALS);
    assert name[..|name|] == name;
  }

  /** The value of a hexadecimal digit of either case. */
  lemma HexExactly(c: char)
    requires c as int < 0x100
    ensures HexValue(c as int)
         == if '0' <= c <= '9' then Some(c as nat - '0' as nat)
            else if 'A' <= c <= 'F' then Some(c as nat - 'A' as nat + 10)
            else if 'a' <= c <= 'f' then Some(c as nat - 'a' as nat + 10) else None
  {
  }

  /** A percent sign and two hexadecimal digits are one byte; a plus sign is a space; and everything
      else, a percent sign without its digits too, stands for itself. */
  lemma UnescapesExactly(bytes: seq<Byte>)
    requires bytes != []
    ensures Unescape([]) == []
    ensures var escaped := |bytes| >= 3 && bytes[0] == '%' as int && HexValue(bytes[1]).Some? && HexValue(bytes[2]).Some?;
            Unescape(bytes)
            == if escaped then [HexValue(bytes[1]).value * 16 + HexValue(bytes[2]).value] + Unescape(bytes[3..])
               else [if bytes[0] == '+' as int then ' ' as int else bytes[0]] + Unescape(bytes[1..])
  {
  }
}
