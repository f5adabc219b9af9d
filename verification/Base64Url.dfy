/** base64url, as section 5 of RFC 4648 defines it, without padding. Decoding also takes the
    standard alphabet and skips every other character, as Node's `Buffer.from` does. */
module Base64Url {
  import opened Options
  import opened Utf8

  type Sextet = n: nat | n < 64

  function Letter(n: Sextet): char {
    if n < 26 then 'A' + n as char
    else if n < 52 then 'a' + (n - 26) as char
    else if n < 62 then '0' + (n - 52) as char
    else if n == 62 then '-' else '_'
  }

  function SextetOf(c: char): Option<Sextet> {
    if 'A' <= c <= 'Z' then Some(c as int - 'A' as int)
    else if 'a' <= c <= 'z' then Some(c as int - 'a' as int + 26)
    else if '0' <= c <= '9' then Some(c as int - '0' as int + 52)
    else if c == '-' || c == '+' then Some(62)
    else if c == '_' || c == '/' then Some(63)
    else None
  }

  // ----- Bytes and sextets -----

  /** Three bytes are four sextets; one or two bytes left over are two or three. */
  function Regroup(bytes: seq<Byte>): seq<Sextet> {
    if bytes == [] then []
    else if |bytes| == 1 then [bytes[0] / 4, bytes[0] % 4 * 16]
    else if |bytes| == 2 then [bytes[0] / 4, bytes[0] % 4 * 16 + bytes[1] / 16, bytes[1] % 16 * 4]
    else
      [bytes[0] / 4, bytes[0] % 4 * 16 + bytes[1] / 16, bytes[1] % 16 * 4 + bytes[2] / 64, bytes[2] % 64]
      + Regroup(bytes[3..])
  }

  function FirstByte(a: nat, b: nat): Byte
    requires a < 64 && b < 64
  {
    a * 4 + b / 16
  }

  function SecondByte(b: nat, c: nat): Byte
    requires b < 64 && c < 64
  {
    b % 16 * 16 + c / 4
  }

  function ThirdByte(c: nat, d: nat): Byte
    requires c < 64 && d < 64
  {
    c % 4 * 64 + d
  }

  /** Bits that do not fill a byte are dropped. */
  function Ungroup(sextets: seq<Sextet>): seq<Byte> {
    if |sextets| <= 1 then []
    else if |sextets| == 2 then [FirstByte(sextets[0], sextets[1])]
    else if |sextets| == 3 then [FirstByte(sextets[0], sextets[1]), SecondByte(sextets[1], sextets[2])]
    else
      [FirstByte(sextets[0], sextets[1]), SecondByte(sextets[1], sextets[2]), ThirdByte(sextets[2], sextets[3])]
      + Ungroup(sextets[4..])
  }

  lemma FirstByteBack(x: Byte, high: nat)
    requires high < 16
    ensures FirstByte(x / 4, x % 4 * 16 + high) == x
  {
  }

  lemma SecondByteBack(before: nat, y: Byte, high: nat)
    requires before < 4 && high < 4
    ensures SecondByte(before * 16 + y / 16, y % 16 * 4 + high) == y
  {
  }

  lemma ThirdByteBack(before: nat, z: Byte)
    requires before < 16
    ensures ThirdByte(before * 4 + z / 64, z % 64) == z
  {
  }

  lemma {:induction false} RegroupRoundTrips(bytes: seq<Byte>)
    ensures Ungroup(Regroup(bytes)) == bytes
  {
    if bytes == [] {
    } else if |bytes| == 1 {
      FirstByteBack(bytes[0], 0);
    } else if |bytes| == 2 {
      FirstByteBack(bytes[0], bytes[1] / 16);
      SecondByteBack(bytes[0] % 4, bytes[1], 0);
    } else {
      var x, y, z, rest := bytes[0], bytes[1], bytes[2], bytes[3..];
      FirstByteBack(x, y / 16);
      SecondByteBack(x % 4, y, z / 64);
      ThirdByteBack(y % 16, z);
      UngroupFour(x / 4, x % 4 * 16 + y / 16, y % 16 * 4 + z / 64, z % 64, Regroup(rest));
      RegroupRoundTrips(rest);
      assert bytes == [x, y, z] + rest;
    }
  }

  lemma UngroupFour(a: Sextet, b: Sextet, c: Sextet, d: Sextet, rest: seq<Sextet>)
    ensures Ungroup([a, b, c, d] + rest) == [FirstByte(a, b), SecondByte(b, c), ThirdByte(c, d)] + Ungroup(rest)
  {
    assert ([a, b, c, d] + rest)[4..] == rest;
  }

  // ----- Letters -----

  function Spell(sextets: seq<Sextet>): string {
    if sextets == [] then "" else [Letter(sextets[0])] + Spell(sextets[1..])
  }

  function Read(text: string): seq<Sextet> {
    if text == "" then []
    else (if SextetOf(text[0]).Some? then [SextetOf(text[0]).value] else []) + Read(text[1..])
  }

  lemma LetterRoundTrips(n: Sextet)
    ensures SextetOf(Letter(n)) == Some(n)
  {
  }

  lemma {:induction false} SpellRoundTrips(sextets: seq<Sextet>)
    ensures Read(Spell(sextets)) == sextets
  {
    if sextets == [] {
    } else {
      LetterRoundTrips(sextets[0]);
      SpellRoundTrips(sextets[1..]);
    }
  }

  function Encode(bytes: seq<Byte>): string {
    Spell(Regroup(bytes))
  }

  function Decode(text: string): seq<Byte> {
    Ungroup(Read(text))
  }

  lemma RoundTrips(bytes: seq<Byte>)
    ensures Decode(Encode(bytes)) == bytes
  {
    SpellRoundTrips(Regroup(bytes));
    RegroupRoundTrips(bytes);
  }

  // ----- The standard's own terms -----

  /** The alphabet: capital letters, small letters, digits, hyphen and underscore, in order. */
  lemma AlphabetExactly(n: Sextet)
    ensures Letter(n) == if n < 26 then 'A' + n as char
                         else if n < 52 then 'a' + (n - 26) as char
                         else if n < 62 then '0' + (n - 52) as char
                         else if n == 62 then '-' else '_'
  {
  }

  /** Decoding takes the letters of this and of the standard alphabet, and skips everything else. */
  lemma DecodeSkipsOthers(c: char, text: string)
    ensures forall n: Sextet ::
              SextetOf(c) == Some(n) <==> Letter(n) == c || (n == 62 && c == '+') || (n == 63 && c == '/')
    ensures Read([c] + text) == (if SextetOf(c).Some? then [SextetOf(c).value] else []) + Read(text)
  {
    assert ([c] + text)[1..] == text;
    if SextetOf(c).Some? { assert Letter(SextetOf(c).value) == c || c == '+' || c == '/'; }
  }

  /** The letters of a 24-bit number, from the highest six bits down. */
  ghost function Letters(bits: nat, count: nat): string
    requires bits < 0x100_0000 && count <= 4
  {
    [Letter(bits / 0x4_0000), Letter(bits / 0x1000 % 64), Letter(bits / 64 % 64), Letter(bits % 64)][..count]
  }

  lemma GroupBits(a: Byte, b: Byte, c: Byte)
    ensures var bits := a * 0x1_0000 + b * 0x100 + c;
            && a / 4 == bits / 0x4_0000 && a % 4 * 16 + b / 16 == bits / 0x1000 % 64
            && b % 16 * 4 + c / 64 == bits / 64 % 64 && c % 64 == bits % 64
  {
    var x, y, z, w := a / 4, a % 4 * 16 + b / 16, b % 16 * 4 + c / 64, c % 64;
    assert a * 0x1_0000 + b * 0x100 + c == x * 0x4_0000 + y * 0x1000 + z * 64 + w;
    Digits64(x, y, z, w);
  }

  lemma SplitAt64(q: nat, r: nat)
    requires r < 64
    ensures (q * 64 + r) / 64 == q && (q * 64 + r) % 64 == r
  {
  }

  lemma SplitAt4096(q: nat, r: nat)
    requires r < 0x1000
    ensures (q * 0x1000 + r) / 0x1000 == q
  {
  }

  lemma SplitAt262144(q: nat, r: nat)
    requires r < 0x4_0000
    ensures (q * 0x4_0000 + r) / 0x4_0000 == q
  {
  }

  lemma Digits64(x: nat, y: nat, z: nat, w: nat)
    requires x < 64 && y < 64 && z < 64 && w < 64
    ensures var bits := x * 0x4_0000 + y * 0x1000 + z * 64 + w;
            bits / 0x4_0000 == x && bits / 0x1000 % 64 == y && bits / 64 % 64 == z && bits % 64 == w
  {
    SplitAt262144(x, y * 0x1000 + z * 64 + w);
    SplitAt4096(x * 64 + y, z * 64 + w);
    SplitAt64(x * 0x1000 + y * 64 + z, w);
    SplitAt64(x, y);
    SplitAt64(x * 64 + y, z);
  }

  lemma SpellFirst(n: Sextet, rest: seq<Sextet>)
    ensures Spell([n] + rest) == [Letter(n)] + Spell(rest)
  {
    assert ([n] + rest)[1..] == rest;
  }

  lemma SpellFour(x: Sextet, y: Sextet, z: Sextet, w: Sextet, rest: seq<Sextet>)
    ensures Spell([x, y, z, w] + rest) == [Letter(x), Letter(y), Letter(z), Letter(w)] + Spell(rest)
  {
    SpellFirst(x, [y] + ([z] + ([w] + rest)));
    SpellFirst(y, [z] + ([w] + rest));
    SpellFirst(z, [w] + rest);
    SpellFirst(w, rest);
    assert [x, y, z, w] + rest == [x] + ([y] + ([z] + ([w] + rest)));
  }

  lemma SpellFew(x: Sextet, y: Sextet, z: Sextet)
    ensures Spell([x, y, z]) == [Letter(x), Letter(y), Letter(z)] && Spell([x, y]) == [Letter(x), Letter(y)]
  {
    SpellFirst(x, [y, z]);
    SpellFirst(y, [z]);
    SpellFirst(z, []);
    SpellFirst(x, [y]);
    SpellFirst(y, []);
    assert [x, y, z] == [x] + [y, z] && [y, z] == [y] + [z] && [z] == [z] + [] && [x, y] == [x] + [y] && [y] == [y] + [];
  }

  /** Every three bytes are spelled as the four letters of their 24 bits. */
  lemma EncodesExactly(a: Byte, b: Byte, c: Byte, rest: seq<Byte>)
    ensures Encode([a, b, c] + rest) == Letters(a * 0x1_0000 + b * 0x100 + c, 4) + Encode(rest)
  {
    GroupBits(a, b, c);
    SpellFour(a / 4, a % 4 * 16 + b / 16, b % 16 * 4 + c / 64, c % 64, Regroup(rest));
    assert ([a, b, c] + rest)[3..] == rest;
  }

  /** Two bytes left over are spelled as three letters and one as two, the missing bits being zero. */
  lemma EncodesRestExactly(a: Byte, b: Byte)
    ensures Encode([a, b]) == Letters(a * 0x1_0000 + b * 0x100, 3)
    ensures Encode([a]) == Letters(a * 0x1_0000, 2)
    ensures Encode([]) == ""
  {
    EncodesTwo(a, b);
    EncodesOne(a);
  }

  lemma EncodesTwo(a: Byte, b: Byte)
    ensures Encode([a, b]) == Letters(a * 0x1_0000 + b * 0x100, 3)
  {
    GroupBits(a, b, 0);
    SpellFew(a / 4, a % 4 * 16 + b / 16, b % 16 * 4);
    assert Regroup([a, b]) == [a / 4, a % 4 * 16 + b / 16, b % 16 * 4];
  }

  lemma EncodesOne(a: Byte)
    ensures Encode([a]) == Letters(a * 0x1_0000, 2)
  {
    GroupBits(a, 0, 0);
    SpellFew(a / 4, a % 4 * 16, 0);
    assert Regroup([a]) == [a / 4, a % 4 * 16];
  }
}
