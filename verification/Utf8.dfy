/** JavaScript text as UTF-16 code units, and its UTF-8 form as the Encoding Standard
    (WHATWG, section 8) encodes and decodes it. */
module Utf8 {
  type Byte = n: nat | n < 0x100
  type CodeUnit = n: nat | n < 0x1_0000
  type Text = seq<CodeUnit>

  const REPLACEMENT := 0xFFFD

  predicate High(unit: nat) { 0xD800 <= unit < 0xDC00 }

  predicate Low(unit: nat) { 0xDC00 <= unit < 0xE000 }

  /** A code point that is not a surrogate. */
  predicate IsScalar(c: nat) {
    c < 0xD800 || 0xE000 <= c < 0x11_0000
  }

  type Scalar = c: nat | c < 0xD800 || 0xE000 <= c < 0x11_0000

  /** An ASCII literal, as text or as bytes. */
  function Ascii(literal: string): (text: seq<Byte>)
    requires forall c | c in literal :: c as int < 0x80
    ensures |text| == |literal|
    ensures forall i | 0 <= i < |text| :: text[i] == literal[i] as int
  {
    seq<Byte>(|literal|, i requires 0 <= i < |literal| => assert literal[i] in literal; literal[i] as Byte)
  }

  // ----- UTF-16 -----

  /** Whether the text starts with a surrogate pair. */
  predicate StartsWithPair(text: Text) {
    |text| >= 2 && High(text[0]) && Low(text[1])
  }

  function Paired(high: CodeUnit, low: CodeUnit): Scalar
    requires High(high) && Low(low)
  {
    0x1_0000 + (high - 0xD800) * 0x400 + (low - 0xDC00)
  }

  /** The scalar values of a text; a surrogate without its partner is replaced. */
  function Scalars(text: Text): seq<Scalar> {
    if text == [] then []
    else if StartsWithPair(text) then
      [Paired(text[0], text[1])] + Scalars(text[2..])
    else [if IsScalar(text[0]) then text[0] else REPLACEMENT] + Scalars(text[1..])
  }

  function UnitsOf(c: Scalar): Text {
    assert (c - 0x1_0000) / 0x400 < 0x400;
    if c < 0x1_0000 then [c] else [0xD800 + (c - 0x1_0000) / 0x400, 0xDC00 + (c - 0x1_0000) % 0x400]
  }

  function Units(scalars: seq<Scalar>): Text {
    if scalars == [] then [] else UnitsOf(scalars[0]) + Units(scalars[1..])
  }

  predicate WellFormed(text: Text) {
    text == []
    || (StartsWithPair(text) && WellFormed(text[2..]))
    || (IsScalar(text[0]) && WellFormed(text[1..]))
  }

  /** What a first scalar writes comes before what the others write. */
  lemma UnitsUnfold(c: Scalar, scalars: seq<Scalar>)
    ensures Units([c] + scalars) == UnitsOf(c) + Units(scalars)
  {
    assert ([c] + scalars)[1..] == scalars;
  }

  lemma PairRoundTrips(text: Text)
    requires StartsWithPair(text)
    ensures Units(Scalars(text)) == [text[0], text[1]] + Units(Scalars(text[2..]))
    ensures WellFormed(text) <==> WellFormed(text[2..])
  {
    var c := Paired(text[0], text[1]);
    UnitsUnfold(c, Scalars(text[2..]));
    assert UnitsOf(c) == [text[0], text[1]];
  }

  lemma ScalarRoundTrips(text: Text)
    requires text != [] && IsScalar(text[0])
    ensures Units(Scalars(text)) == [text[0]] + Units(Scalars(text[1..]))
    ensures WellFormed(text) <==> WellFormed(text[1..])
  {
    UnitsUnfold(text[0], Scalars(text[1..]));
  }

  lemma LoneSurrogateIsReplaced(text: Text)
    requires text != [] && !StartsWithPair(text) && !IsScalar(text[0])
    ensures Units(Scalars(text)) == [0xFFFD] + Units(Scalars(text[1..]))
    ensures !WellFormed(text)
  {
    UnitsUnfold(REPLACEMENT, Scalars(text[1..]));
  }

  lemma SameAfterPrefix<T>(text: seq<T>, prefix: seq<T>, rest: seq<T>, n: nat)
    requires n == |prefix| && n <= |text| && prefix == text[..n]
    ensures prefix + rest == text <==> rest == text[n..]
  {
    assert text == prefix + text[n..];
    assert (prefix + rest)[n..] == rest;
  }

  /** Reading and writing scalar values keeps a text's length, and keeps the text itself
      exactly when it is well formed. */
  lemma {:induction false} ScalarsRoundTrip(text: Text)
    ensures |Units(Scalars(text))| == |text|
    ensures Units(Scalars(text)) == text <==> WellFormed(text)
  {
    if text == [] {
    } else if StartsWithPair(text) {
      ScalarsRoundTrip(text[2..]);
      PairRoundTrips(text);
      SameAfterPrefix(text, [text[0], text[1]], Units(Scalars(text[2..])), 2);
    } else if IsScalar(text[0]) {
      ScalarsRoundTrip(text[1..]);
      ScalarRoundTrips(text);
      SameAfterPrefix(text, [text[0]], Units(Scalars(text[1..])), 1);
    } else {
      ScalarsRoundTrip(text[1..]);
      LoneSurrogateIsReplaced(text);
      assert Units(Scalars(text))[0] == REPLACEMENT != text[0];
    }
  }

  lemma OneScalarRead(c: Scalar, rest: Text)
    ensures Scalars(UnitsOf(c) + rest) == [c] + Scalars(rest)
    ensures WellFormed(rest) ==> WellFormed(UnitsOf(c) + rest)
  {
    var text := UnitsOf(c) + rest;
    if c < 0x1_0000 {
      assert text[1..] == rest && text[0] == c;
    } else {
      assert text[2..] == rest && text[0] == UnitsOf(c)[0] && text[1] == UnitsOf(c)[1];
    }
  }

  lemma {:induction false} UnitsWellFormed(scalars: seq<Scalar>)
    ensures WellFormed(Units(scalars))
    ensures Scalars(Units(scalars)) == scalars
  {
    if scalars == [] {
    } else {
      UnitsWellFormed(scalars[1..]);
      OneScalarRead(scalars[0], Units(scalars[1..]));
    }
  }

  // ----- UTF-8 -----

  /** A continuation byte carrying the low six bits of `bits`. */
  function Tail(bits: nat): Byte {
    0x80 + bits % 0x40
  }

  function EncodeScalar(c: Scalar): seq<Byte> {
    if c < 0x80 then [c]
    else if c < 0x800 then [0xC0 + c / 0x40, Tail(c)]
    else if c < 0x1_0000 then [0xE0 + c / 0x1000, Tail(c / 0x40), Tail(c)]
    else assert c / 0x4_0000 <= 4; [0xF0 + c / 0x4_0000, Tail(c / 0x1000), Tail(c / 0x40), Tail(c)]
  }

  function EncodeScalars(scalars: seq<Scalar>): seq<Byte> {
    if scalars == [] then [] else EncodeScalar(scalars[0]) + EncodeScalars(scalars[1..])
  }

  /** Between two code points, or inside one with `missing` bytes to come, the next of which
      must lie in lower..upper. */
  datatype State = Idle | Inside(value: nat, missing: nat, lower: nat, upper: nat)

  /** How many code points share all but the last `missing - 1` bytes. */
  function Span(missing: nat): nat {
    if missing <= 1 then 1 else if missing == 2 then 0x40 else 0x1000
  }

  /** Whatever bytes follow, the sequence ends in a scalar value. */
  predicate Legal(state: State) {
    state.Inside? ==>
      && 1 <= state.missing <= 3 && 0x80 <= state.lower <= state.upper <= 0xBF
      && var first := (state.value * 0x40 + state.lower - 0x80) * Span(state.missing);
         var last := (state.value * 0x40 + state.upper - 0x80) * Span(state.missing) + Span(state.missing) - 1;
         last < 0xD800 || (0xE000 <= first && last < 0x11_0000)
  }

  /** The state after a lead byte, or Idle when no sequence can start with this byte. */
  function AfterLead(lead: Byte): (state: State)
    ensures Legal(state)
  {
    if 0xC2 <= lead <= 0xDF then Inside(lead - 0xC0, 1, 0x80, 0xBF)
    else if 0xE0 <= lead <= 0xEF then
      Inside(lead - 0xE0, 2, if lead == 0xE0 then 0xA0 else 0x80, if lead == 0xED then 0x9F else 0xBF)
    else if 0xF0 <= lead <= 0xF4 then
      Inside(lead - 0xF0, 3, if lead == 0xF0 then 0x90 else 0x80, if lead == 0xF4 then 0x8F else 0xBF)
    else Idle
  }

  /** The decoder: an invalid byte sequence is replaced, and decoding goes on. */
  function DecodeFrom(state: State, bytes: seq<Byte>): seq<Scalar>
    requires Legal(state)
    decreases |bytes|, if state.Idle? then 0 else 1
  {
    if bytes == [] then (if state.Idle? then [] else [REPLACEMENT])
    else
      var byte, rest := bytes[0], bytes[1..];
      match state
      case Idle =>
        if byte < 0x80 then [byte] + DecodeFrom(Idle, rest)
        else if AfterLead(byte).Idle? then [REPLACEMENT] + DecodeFrom(Idle, rest)
        else DecodeFrom(AfterLead(byte), rest)
      case Inside(value, missing, lower, upper) =>
        if !(lower <= byte <= upper) then [REPLACEMENT] + DecodeFrom(Idle, bytes)
        else if missing == 1 then [value * 0x40 + (byte - 0x80)] + DecodeFrom(Idle, rest)
        else DecodeFrom(Inside(value * 0x40 + (byte - 0x80), missing - 1, 0x80, 0xBF), rest)
  }

  lemma StaysLegal(value: nat, missing: nat, lower: nat, upper: nat, byte: Byte)
    requires Legal(Inside(value, missing, lower, upper)) && lower <= byte <= upper
    ensures missing == 1 ==> IsScalar(value * 0x40 + (byte - 0x80))
    ensures missing > 1 ==> Legal(Inside(value * 0x40 + (byte - 0x80), missing - 1, 0x80, 0xBF))
  {
    if missing == 2 {
    } else if missing == 3 {
    } else {
    }
  }

  lemma Continue(value: nat, missing: nat, lower: nat, upper: nat, byte: Byte, rest: seq<Byte>)
    requires Legal(Inside(value, missing, lower, upper)) && lower <= byte <= upper
    ensures missing > 1 ==> Legal(Inside(value * 0x40 + (byte - 0x80), missing - 1, 0x80, 0xBF))
    ensures DecodeFrom(Inside(value, missing, lower, upper), [byte] + rest)
         == if missing == 1 then [value * 0x40 + (byte - 0x80)] + DecodeFrom(Idle, rest)
            else DecodeFrom(Inside(value * 0x40 + (byte - 0x80), missing - 1, 0x80, 0xBF), rest)
  {
    StaysLegal(value, missing, lower, upper, byte);
    assert ([byte] + rest)[1..] == rest;
  }

  lemma Start(lead: Byte, rest: seq<Byte>)
    requires AfterLead(lead).Inside?
    ensures DecodeFrom(Idle, [lead] + rest) == DecodeFrom(AfterLead(lead), rest)
  {
    assert ([lead] + rest)[1..] == rest;
  }

  lemma Shifted(c: nat)
    ensures c / 0x40 / 0x40 == c / 0x1000 && c / 0x1000 / 0x40 == c / 0x4_0000
    ensures c == c / 0x40 * 0x40 + c % 0x40
    ensures c / 0x40 == c / 0x1000 * 0x40 + c / 0x40 % 0x40
    ensures c / 0x1000 == c / 0x4_0000 * 0x40 + c / 0x1000 % 0x40
  {
  }

  /** The second byte lies in the range its lead byte allows, and the two carry the code
      point's leading bits. */
  lemma SecondByteFits(c: Scalar)
    requires c >= 0x800
    ensures var bytes := EncodeScalar(c);
            var lead := AfterLead(bytes[0]);
            && lead.Inside? && lead.lower <= bytes[1] <= lead.upper
            && lead.missing == |bytes| - 1
            && lead.value * 0x40 + (bytes[1] - 0x80) == if c < 0x1_0000 then c / 0x40 else c / 0x1000
  {
    Shifted(c);
  }

  lemma LastTail(c: nat, rest: seq<Byte>)
    requires Legal(Inside(c / 0x40, 1, 0x80, 0xBF))
    ensures DecodeFrom(Inside(c / 0x40, 1, 0x80, 0xBF), [Tail(c)] + rest) == [c] + DecodeFrom(Idle, rest)
  {
    Continue(c / 0x40, 1, 0x80, 0xBF, Tail(c), rest);
  }

  lemma LastTwoTails(c: nat, rest: seq<Byte>)
    requires Legal(Inside(c / 0x1000, 2, 0x80, 0xBF))
    ensures DecodeFrom(Inside(c / 0x1000, 2, 0x80, 0xBF), [Tail(c / 0x40)] + ([Tail(c)] + rest))
         == [c] + DecodeFrom(Idle, rest)
  {
    Shifted(c);
    Continue(c / 0x1000, 2, 0x80, 0xBF, Tail(c / 0x40), [Tail(c)] + rest);
    LastTail(c, rest);
  }

  lemma TwoBytesDecoded(c: Scalar, rest: seq<Byte>)
    requires 0x80 <= c < 0x800
    ensures DecodeFrom(Idle, EncodeScalar(c) + rest) == [c] + DecodeFrom(Idle, rest)
  {
    var lead := 0xC0 + c / 0x40;
    assert EncodeScalar(c) + rest == [lead] + ([Tail(c)] + rest);
    Start(lead, [Tail(c)] + rest);
    LastTail(c, rest);
  }

  lemma ThreeBytesDecoded(c: Scalar, rest: seq<Byte>)
    requires 0x800 <= c < 0x1_0000
    ensures DecodeFrom(Idle, EncodeScalar(c) + rest) == [c] + DecodeFrom(Idle, rest)
  {
    var lead := 0xE0 + c / 0x1000;
    var tail := [Tail(c)] + rest;
    assert EncodeScalar(c) + rest == [lead] + ([Tail(c / 0x40)] + tail);
    SecondByteFits(c);
    var state := AfterLead(lead);
    Start(lead, [Tail(c / 0x40)] + tail);
    Continue(state.value, 2, state.lower, state.upper, Tail(c / 0x40), tail);
    LastTail(c, rest);
  }

  lemma FourBytesDecoded(c: Scalar, rest: seq<Byte>)
    requires 0x1_0000 <= c
    ensures DecodeFrom(Idle, EncodeScalar(c) + rest) == [c] + DecodeFrom(Idle, rest)
  {
    var lead := 0xF0 + c / 0x4_0000;
    var tails := [Tail(c / 0x40)] + ([Tail(c)] + rest);
    assert EncodeScalar(c) + rest == [lead] + ([Tail(c / 0x1000)] + tails);
    SecondByteFits(c);
    var state := AfterLead(lead);
    Start(lead, [Tail(c / 0x1000)] + tails);
    Continue(state.value, 3, state.lower, state.upper, Tail(c / 0x1000), tails);
    LastTwoTails(c, rest);
  }

  lemma OneDecoded(c: Scalar, rest: seq<Byte>)
    ensures DecodeFrom(Idle, EncodeScalar(c) + rest) == [c] + DecodeFrom(Idle, rest)
  {
    if c < 0x80 {
      assert ([c] + rest)[1..] == rest;
    } else if c < 0x800 {
      TwoBytesDecoded(c, rest);
    } else if c < 0x1_0000 {
      ThreeBytesDecoded(c, rest);
    } else {
      FourBytesDecoded(c, rest);
    }
  }

  lemma {:induction false} ScalarsDecoded(scalars: seq<Scalar>)
    ensures DecodeFrom(Idle, EncodeScalars(scalars)) == scalars
  {
    if scalars == [] {
    } else {
      OneDecoded(scalars[0], EncodeScalars(scalars[1..]));
      ScalarsDecoded(scalars[1..]);
    }
  }

  // ----- Texts and bytes -----

  function Encode(text: Text): seq<Byte> {
    EncodeScalars(Scalars(text))
  }

  function Decode(bytes: seq<Byte>): Text {
    Units(DecodeFrom(Idle, bytes))
  }

  /** The text comes back from its UTF-8 form exactly when it is well formed; a replaced
      surrogate takes as much room as the surrogate did. */
  lemma TextRoundTrips(text: Text)
    ensures Decode(Encode(text)) == text <==> WellFormed(text)
    ensures |Decode(Encode(text))| == |text|
  {
    ScalarsDecoded(Scalars(text));
    ScalarsRoundTrip(text);
  }

  lemma DecodedWellFormed(bytes: seq<Byte>)
    ensures WellFormed(Decode(bytes))
  {
    UnitsWellFormed(DecodeFrom(Idle, bytes));
  }

  lemma {:induction false} ConcatWellFormed(a: Text, b: Text)
    requires WellFormed(a) && WellFormed(b)
    ensures WellFormed(a + b)
  {
    if a == [] {
      assert a + b == b;
    } else if StartsWithPair(a) && WellFormed(a[2..]) {
      ConcatWellFormed(a[2..], b);
      assert (a + b)[2..] == a[2..] + b;
    } else {
      ConcatWellFormed(a[1..], b);
      assert (a + b)[1..] == a[1..] + b;
    }
  }

  lemma {:induction false} PlainWellFormed(text: Text)
    requires forall i | 0 <= i < |text| :: text[i] < 0xD800
    ensures WellFormed(text)
  {
    if text == [] {
    } else {
      PlainWellFormed(text[1..]);
    }
  }

  // ----- The standard's own terms -----

  ghost predicate Continues(byte: Byte) {
    0x80 <= byte <= 0xBF
  }

  /** The number that bytes carry in their low six bits after a lead byte's own bits. */
  ghost function Carried(lead: nat, tails: seq<Byte>): int {
    if tails == [] then lead else Carried(lead, tails[..|tails| - 1]) * 0x40 + (tails[|tails| - 1] as int - 0x80)
  }

  lemma CarriedBy(lead: nat, x: Byte, y: Byte, z: Byte)
    ensures Carried(lead, [x]) == lead * 0x40 + (x as int - 0x80)
    ensures Carried(lead, [x, y]) == Carried(lead, [x]) * 0x40 + (y as int - 0x80)
    ensures Carried(lead, [x, y, z]) == Carried(lead, [x, y]) * 0x40 + (z as int - 0x80)
  {
    assert [x, y, z][..2] == [x, y] && [x, y][..1] == [x] && [x][..0] == [];
  }

  /** A scalar value's bytes: one below 0x80, two below 0x800, three below 0x10000, else four; the
      lead byte in the range for that many, continuation bytes behind it, and the value carried. */
  lemma EncodedExactly(c: Scalar)
    ensures var b := EncodeScalar(c);
            && (|b| == if c < 0x80 then 1 else if c < 0x800 then 2 else if c < 0x1_0000 then 3 else 4)
            && (|b| == 1 ==> b[0] == c)
            && (|b| == 2 ==> 0xC2 <= b[0] <= 0xDF && c == Carried(b[0] - 0xC0, b[1..]))
            && (|b| == 3 ==> 0xE0 <= b[0] <= 0xEF && c == Carried(b[0] - 0xE0, b[1..]))
            && (|b| == 4 ==> 0xF0 <= b[0] <= 0xF4 && c == Carried(b[0] - 0xF0, b[1..]))
            && forall i | 1 <= i < |b| :: Continues(b[i])
  {
    var b := EncodeScalar(c);
    Shifted(c);
    if |b| == 2 {
      assert b[1..] == [b[1]];
      CarriedBy(b[0] - 0xC0, b[1], 0, 0);
    } else if |b| == 3 {
      assert b[1..] == [b[1], b[2]];
      CarriedBy(b[0] - 0xE0, b[1], b[2], 0);
    } else if |b| == 4 {
      assert b[1..] == [b[1], b[2], b[3]];
      CarriedBy(b[0] - 0xF0, b[1], b[2], b[3]);
    }
  }

  /** What is no scalar value's bytes is replaced: a byte that starts none by itself, a lead byte at
      the end or before a byte that cannot follow it, which is then read afresh. */
  lemma InvalidIsReplaced(byte: Byte, lead: Byte, rest: seq<Byte>)
    requires 0x80 <= byte < 0xC2 || 0xF5 <= byte
    requires 0xC2 <= lead <= 0xF4 && (rest != [] ==> !Continues(rest[0]))
    ensures Decode([byte] + rest) == Units([0xFFFD]) + Decode(rest)
    ensures Decode([lead] + rest) == Units([0xFFFD]) + Decode(rest)
  {
    assert ([byte] + rest)[1..] == rest;
    Start(lead, rest);
    UnitsUnfold(0xFFFD, DecodeFrom(Idle, rest));
    UnitsUnfold(0xFFFD, []);
    assert [0xFFFD] + [] == [0xFFFD];
    if rest == [] {
      assert DecodeFrom(AfterLead(lead), rest) == [0xFFFD] + DecodeFrom(Idle, rest);
    }
  }
}
