/** The signed links of e-mails: unsubscribing from the newsletter and resubscribing to it,
    and switching off one category of notifications. The signing function is a parameter. */
module LinkTokens {
  import opened Options
  import opened Utf8
  import Base64Url
  import Decimals
  import Splitting

  const DOT: Byte := 0x2E
  const COLON: Byte := 0x3A

  const TTL_MS := 90 * 24 * 60 * 60 * 1000
  const CLOCK_SKEW_MS := 60_000

  /** The last instant a Date can hold, in milliseconds. */
  const MAX_DATE := 8_640_000_000_000_000

  datatype Purpose = Unsubscribe | Resubscribe

  const UNSUBSCRIBE: seq<Byte> := Ascii("unsubscribe")
  const RESUBSCRIBE: seq<Byte> := Ascii("resubscribe")

  function Name(purpose: Purpose): seq<Byte> {
    if purpose.Unsubscribe? then UNSUBSCRIBE else RESUBSCRIBE
  }

  const CATEGORIES: seq<seq<Byte>> := [
    Ascii("eventUpdates"), Ascii("teamActivity"), Ascii("judging"), Ascii("reminders"), Ascii("hiring")
  ]

  type Sign = seq<Byte> -> Text

  /** What the proofs use of a keyed hash printed in base64url: distinct bytes have distinct
      signatures, which are non-empty and hold no dot. */
  ghost predicate Signs(sign: Sign) {
    && (forall x, y | sign(x) == sign(y) :: x == y)
    && forall x :: sign(x) != [] && DOT !in sign(x) && WellFormed(sign(x))
  }

  /** A payload is signed as UTF-8. */
  function SignText(sign: Sign, payload: Text): Text {
    sign(Encode(payload))
  }

  /** `Number` of a text; None stands for NaN and the infinities. */
  type ToNumber = Text -> Option<real>

  /** What the proofs use of `Number`: it reads what a Date's milliseconds are printed as, and
      makes nothing of a category's name. */
  ghost predicate ReadsNumbers(number: ToNumber) {
    && (forall n: nat | n <= MAX_DATE :: number(Digits(n)) == Some(n as real))
    && forall category | category in CATEGORIES :: number(category).None?
  }

  function Digits(n: nat): (text: seq<Byte>)
    ensures text != [] && forall i | 0 <= i < |text| :: '0' as int <= text[i] <= '9' as int
  {
    var literal := Decimals.Decimal(n);
    assert forall i | 0 <= i < |literal| :: literal[i] in literal && literal[i] in Decimals.DIGITS;
    Ascii(literal)
  }

  /** An identifier a link can carry: not empty, no dot, no unpaired surrogate. */
  predicate IsId(id: Text) {
    id != [] && DOT !in id && WellFormed(id)
  }

  function Print(content: Text): string {
    Base64Url.Encode(Encode(content))
  }

  function Read(token: string): Text {
    Decode(Base64Url.Decode(token))
  }

  /** The last position of a dot, or -1. */
  function LastDot(text: Text): (k: int)
    ensures -1 <= k < |text|
    ensures k >= 0 ==> text[k] == DOT
    ensures DOT !in text[k + 1..]
  {
    if text == [] then -1
    else if text[|text| - 1] == DOT then |text| - 1
    else LastDot(text[..|text| - 1])
  }

  function Parts(text: Text): (parts: seq<Text>)
    ensures parts != []
  {
    Splitting.Split<CodeUnit>(text, DOT)
  }

  // ----- Newsletter links -----

  function Stamped(id: Text, issuedAt: nat): Text {
    id + [DOT] + Digits(issuedAt)
  }

  function Payload(purpose: Purpose, body: Text): Text {
    Name(purpose) + [COLON] + body
  }

  function CreateToken(id: Text, purpose: Purpose, now: nat, sign: Sign): string {
    Print(Stamped(id, now) + [DOT] + SignText(sign, Payload(purpose, Stamped(id, now))))
  }

  /** Links sent before links expired: the identifier alone, signed without a purpose. */
  function LegacyToken(id: Text, sign: Sign): string {
    Print(id + [DOT] + SignText(sign, id))
  }

  /** The checks on a body with an issue time. */
  predicate Current(body: Text, now: int, number: ToNumber) {
    var parts := Parts(body);
    var issuedAt := if |parts| > 1 then number(parts[1]) else None;
    && parts[0] != [] && issuedAt.Some?
    && now as real - issuedAt.value <= TTL_MS as real
    && issuedAt.value <= (now + CLOCK_SKEW_MS) as real
  }

  /** The checks on a body and its signature. */
  function VerifyParts(
    body: Text, signature: Text, purpose: Purpose, now: int, sign: Sign, number: ToNumber): Option<Text>
  {
    var legacy := purpose == Unsubscribe && DOT !in body;
    if body == [] || signature == [] then None
    else if !legacy && !Current(body, now, number) then None
    else if Encode(signature) != Encode(SignText(sign, if legacy then body else Payload(purpose, body))) then None
    else Some(if legacy then body else Parts(body)[0])
  }

  function VerifyToken(token: string, purpose: Purpose, now: int, sign: Sign, number: ToNumber): Option<Text> {
    var decoded := Read(token);
    var k := LastDot(decoded);
    if k == -1 then None else VerifyParts(decoded[..k], decoded[k + 1..], purpose, now, sign, number)
  }

  // ----- Notification links -----

  datatype Preference = Preference(userId: Text, category: Text)

  function CategoryPayload(userId: Text, category: Text): Text {
    userId + [DOT] + category
  }

  function CreateCategoryToken(userId: Text, category: Text, sign: Sign): string {
    var payload := CategoryPayload(userId, category);
    Print(payload + [DOT] + SignText(sign, payload))
  }

  function VerifyCategoryToken(token: string, sign: Sign): Option<Preference> {
    var parts := Parts(Read(token));
    if |parts| != 3 then None
    else if parts[0] == [] || parts[1] !in CATEGORIES then None
    else if Encode(parts[2]) != Encode(SignText(sign, CategoryPayload(parts[0], parts[1]))) then None
    else Some(Preference(parts[0], parts[1]))
  }

  // ----- Texts with dots -----

  lemma BytesWellFormed(text: seq<Byte>)
    ensures WellFormed(text)
  {
    PlainWellFormed(text);
  }

  lemma DottedWellFormed(a: Text, b: Text)
    requires WellFormed(a) && WellFormed(b)
    ensures WellFormed(a + [DOT] + b)
  {
    BytesWellFormed([DOT]);
    ConcatWellFormed(a, [DOT]);
    ConcatWellFormed(a + [DOT], b);
  }

  lemma PrintRead(content: Text)
    requires WellFormed(content)
    ensures Read(Print(content)) == content
  {
    Base64Url.RoundTrips(Encode(content));
    TextRoundTrips(content);
  }

  lemma {:induction false} LastDotFound(body: Text, signature: Text)
    requires DOT !in signature
    ensures LastDot(body + [DOT] + signature) == |body|
    decreases |signature|
  {
    var text := body + [DOT] + signature;
    if signature == [] {
    } else {
      var shorter := signature[..|signature| - 1];
      assert signature[|signature| - 1] in signature;
      assert forall unit | unit in shorter :: unit in signature;
      assert text[..|text| - 1] == body + [DOT] + shorter;
      LastDotFound(body, shorter);
    }
  }

  lemma PartsWhole(text: Text)
    requires DOT !in text
    ensures Parts(text) == [text]
  {
    Splitting.SplitWhole<CodeUnit>(text, DOT);
  }

  lemma PartsFirst(first: Text, rest: Text)
    requires DOT !in first
    ensures Parts(first + [DOT] + rest) == [first] + Parts(rest)
  {
    Splitting.SplitFirst<CodeUnit>(first, DOT, rest);
  }

  lemma PartsStamped(id: Text, issuedAt: nat)
    requires DOT !in id
    ensures Parts(Stamped(id, issuedAt)) == [id, Digits(issuedAt)]
  {
    PartsFirst(id, Digits(issuedAt));
    PartsWhole(Digits(issuedAt));
  }

  /** A text with a dot is its first part, the dot and the rest. */
  lemma FirstPart(text: Text) returns (rest: Text)
    requires DOT in text
    ensures |Parts(text)| > 1 && DOT !in Parts(text)[0]
    ensures text == Parts(text)[0] + [DOT] + rest
    ensures Parts(text)[1..] == Parts(rest)
  {
    var k := Splitting.IndexOf<CodeUnit>(text, DOT);
    assert text[..|text|] == text;
    rest := text[k + 1..];
    assert text == text[..k] + [DOT] + rest;
  }

  /** A dot-free beginning determines where the first dot is. */
  lemma DottedInjective(a: Text, b: Text, x: Text, y: Text)
    requires DOT !in a && DOT !in x && a + [DOT] + b == x + [DOT] + y
    ensures a == x && b == y
  {
    Splitting.SplitFirst<CodeUnit>(a, DOT, b);
    Splitting.SplitFirst<CodeUnit>(x, DOT, y);
    var text := a + [DOT] + b;
    assert a == text[..|a|] && b == text[|a| + 1..];
    assert x == text[..|x|] && y == text[|x| + 1..];
  }

  /** Equal bytes are equal texts, where both are well formed. */
  lemma EncodeInjective(x: Text, y: Text)
    requires WellFormed(x) && WellFormed(y) && Encode(x) == Encode(y)
    ensures x == y
  {
    TextRoundTrips(x);
    TextRoundTrips(y);
  }

  lemma ReadWellFormed(token: string)
    ensures WellFormed(Read(token))
  {
    DecodedWellFormed(Base64Url.Decode(token));
  }

  lemma {:induction false} TailWellFormed(text: Text, k: nat)
    requires WellFormed(text) && k < |text| && text[k] == DOT
    ensures WellFormed(text[k + 1..])
    decreases |text|
  {
    if k == 0 {
    } else if StartsWithPair(text) && WellFormed(text[2..]) {
      TailWellFormed(text[2..], k - 2);
      assert text[2..][k - 1..] == text[k + 1..];
    } else {
      TailWellFormed(text[1..], k - 1);
      assert text[1..][k..] == text[k + 1..];
    }
  }

  lemma {:induction false} HeadWellFormed(text: Text, k: nat)
    requires WellFormed(text) && k < |text| && text[k] == DOT
    ensures WellFormed(text[..k])
    decreases |text|
  {
    if k == 0 {
    } else if StartsWithPair(text) && WellFormed(text[2..]) {
      HeadWellFormed(text[2..], k - 2);
      assert text[..k][2..] == text[2..][..k - 2];
    } else {
      HeadWellFormed(text[1..], k - 1);
      assert text[..k][1..] == text[1..][..k - 1];
    }
  }

  lemma PayloadWellFormed(purpose: Purpose, body: Text)
    requires WellFormed(body)
    ensures WellFormed(Payload(purpose, body))
  {
    BytesWellFormed(Name(purpose));
    BytesWellFormed([COLON]);
    ConcatWellFormed(Name(purpose), [COLON]);
    ConcatWellFormed(Name(purpose) + [COLON], body);
  }

  lemma PartsSigned(body: Text, signature: Text, purpose: Purpose, now: int, sign: Sign, number: ToNumber)
    requires Signs(sign) && body != [] && signature != [] && WellFormed(signature)
    ensures VerifyParts(body, signature, purpose, now, sign, number)
         == if purpose == Unsubscribe && DOT !in body
            then (if signature == SignText(sign, body) then Some(body) else None)
            else if Current(body, now, number) && signature == SignText(sign, Payload(purpose, body))
            then Some(Parts(body)[0]) else None
  {
    var expected := SignText(sign, if purpose == Unsubscribe && DOT !in body then body else Payload(purpose, body));
    if Encode(signature) == Encode(expected) {
      EncodeInjective(signature, expected);
    }
  }

  /** What verification makes of a token that reads as a body, a dot and a signature. */
  lemma VerifySigned(
    token: string, body: Text, signature: Text, purpose: Purpose, now: int, sign: Sign, number: ToNumber)
    requires DOT !in signature && Read(token) == body + [DOT] + signature
    ensures VerifyToken(token, purpose, now, sign, number) == VerifyParts(body, signature, purpose, now, sign, number)
  {
    LastDotFound(body, signature);
    assert Read(token)[..|body|] == body && Read(token)[|body| + 1..] == signature;
  }

  lemma CurrentStamped(id: Text, issuedAt: nat, now: int, number: ToNumber)
    requires ReadsNumbers(number) && IsId(id) && issuedAt <= MAX_DATE
    ensures Current(Stamped(id, issuedAt), now, number)
        <==> now - issuedAt <= TTL_MS && issuedAt <= now + CLOCK_SKEW_MS
  {
    PartsStamped(id, issuedAt);
    assert number(Digits(issuedAt)) == Some(issuedAt as real);
  }

  lemma SignInjective(sign: Sign, x: Text, y: Text)
    requires Signs(sign) && WellFormed(x) && WellFormed(y) && SignText(sign, x) == SignText(sign, y)
    ensures x == y
  {
    EncodeInjective(x, y);
  }

  lemma PayloadNamesPurpose(p: Purpose, x: Text, q: Purpose, y: Text)
    requires Payload(p, x) == Payload(q, y)
    ensures p == q && x == y
  {
    assert Payload(p, x)[0] == Name(p)[0] && Payload(q, y)[0] == Name(q)[0];
    assert UNSUBSCRIBE[0] == 'u' as int && RESUBSCRIBE[0] == 'r' as int;
    var n := |Name(p)| + 1;
    assert x == Payload(p, x)[n..] && y == Payload(q, y)[n..];
  }

  // ----- Round trips -----

  /** A created newsletter link is accepted for its purpose exactly within its lifetime, and
      for the other purpose never. */
  lemma CreatedTokenVerifiesExactly(
    id: Text, made: Purpose, issuedAt: nat, asked: Purpose, now: int, sign: Sign, number: ToNumber)
    requires Signs(sign) && ReadsNumbers(number) && IsId(id) && issuedAt <= MAX_DATE
    ensures VerifyToken(CreateToken(id, made, issuedAt, sign), asked, now, sign, number)
         == if made == asked && now - issuedAt <= 7_776_000_000 && issuedAt <= now + 60_000
            then Some(id) else None
  {
    var body := Stamped(id, issuedAt);
    var signature := SignText(sign, Payload(made, body));
    BytesWellFormed(Digits(issuedAt));
    DottedWellFormed(id, Digits(issuedAt));
    DottedWellFormed(body, signature);
    PrintRead(body + [DOT] + signature);
    assert body[|id|] == DOT;
    PartsStamped(id, issuedAt);
    CurrentStamped(id, issuedAt, now, number);
    VerifySigned(CreateToken(id, made, issuedAt, sign), body, signature, asked, now, sign, number);
    PartsSigned(body, signature, asked, now, sign, number);
    PayloadWellFormed(made, body);
    PayloadWellFormed(asked, body);
    if signature == SignText(sign, Payload(asked, body)) {
      SignInjective(sign, Payload(made, body), Payload(asked, body));
      PayloadNamesPurpose(made, body, asked, body);
    }
  }

  /** A link sent before links expired still unsubscribes, at any time, and never resubscribes. */
  lemma LegacyTokenVerifiesExactly(id: Text, asked: Purpose, now: int, sign: Sign, number: ToNumber)
    requires Signs(sign) && IsId(id)
    ensures VerifyToken(LegacyToken(id, sign), asked, now, sign, number)
         == if asked == Unsubscribe then Some(id) else None
  {
    DottedWellFormed(id, SignText(sign, id));
    PrintRead(id + [DOT] + SignText(sign, id));
    VerifySigned(LegacyToken(id, sign), id, SignText(sign, id), asked, now, sign, number);
    PartsSigned(id, SignText(sign, id), asked, now, sign, number);
    PartsWhole(id);
  }

  lemma CategoryParts(userId: Text, category: Text, signature: Text)
    requires DOT !in userId && DOT !in category && DOT !in signature
    ensures Parts(CategoryPayload(userId, category) + [DOT] + signature) == [userId, category, signature]
  {
    assert CategoryPayload(userId, category) + [DOT] + signature
        == userId + [DOT] + (category + [DOT] + signature);
    PartsFirst(userId, category + [DOT] + signature);
    PartsFirst(category, signature);
    PartsWhole(signature);
  }

  /** A created notification link gives back its user and category. */
  lemma CategoryTokenVerifies(userId: Text, category: seq<Byte>, sign: Sign)
    requires Signs(sign) && IsId(userId) && category in CATEGORIES
    ensures VerifyCategoryToken(CreateCategoryToken(userId, category, sign), sign)
         == Some(Preference(userId, category))
  {
    var signature := SignText(sign, CategoryPayload(userId, category));
    CategoriesArePlain(category);
    BytesWellFormed(category);
    DottedWellFormed(userId, category);
    DottedWellFormed(CategoryPayload(userId, category), signature);
    PrintRead(CategoryPayload(userId, category) + [DOT] + signature);
    CategoryParts(userId, category, signature);
  }

  lemma CategoriesArePlain(category: Text)
    requires category in CATEGORIES
    ensures category != [] && DOT !in category && category[0] >= 0x61
  {
    var k :| 0 <= k < |CATEGORIES| && CATEGORIES[k] == category;
    CategoryIsPlain("eventUpdates");
    CategoryIsPlain("teamActivity");
    CategoryIsPlain("judging");
    CategoryIsPlain("reminders");
    CategoryIsPlain("hiring");
  }

  lemma CategoryIsPlain(literal: string)
    requires literal != "" && 'a' <= literal[0] <= 'z'
    requires forall c | c in literal :: c as int < 0x80 && c != '.'
    ensures Ascii(literal) != [] && DOT !in Ascii(literal) && Ascii(literal)[0] >= 0x61
  {
    assert forall i | 0 <= i < |literal| :: literal[i] in literal;
  }

  /** What each link says, in base64url: the identifier, the time in digits and the signature, joined by
      dots; what is signed is the purpose, a colon, and all before the signature. */
  lemma TokensSpelled(id: Text, purpose: Purpose, category: Text, now: nat, sign: Sign)
    ensures var stamped := id + ['.' as int] + Digits(now);
            var signed := (if purpose.Unsubscribe? then Ascii("unsubscribe:") else Ascii("resubscribe:")) + stamped;
            CreateToken(id, purpose, now, sign) == Base64Url.Encode(Encode(stamped + ['.' as int] + sign(Encode(signed))))
    ensures LegacyToken(id, sign) == Base64Url.Encode(Encode(id + ['.' as int] + sign(Encode(id))))
    ensures var payload := id + ['.' as int] + category;
            CreateCategoryToken(id, category, sign)
            == Base64Url.Encode(Encode(payload + ['.' as int] + sign(Encode(payload))))
  {
    assert Ascii("unsubscribe:") == UNSUBSCRIBE + [COLON] && Ascii("resubscribe:") == RESUBSCRIBE + [COLON];
  }

  // ----- Any token at all -----

  ghost function Body(token: string): Text {
    var k := LastDot(Read(token));
    if k == -1 then [] else Read(token)[..k]
  }

  ghost function Signature(token: string): Text {
    var k := LastDot(Read(token));
    if k == -1 then [] else Read(token)[k + 1..]
  }

  /** What a newsletter link's signature is checked against. */
  ghost function Checked(token: string, purpose: Purpose): Text {
    if purpose == Unsubscribe && DOT !in Body(token) then Body(token) else Payload(purpose, Body(token))
  }

  lemma SignatureWellFormed(token: string)
    ensures WellFormed(Signature(token))
  {
    ReadWellFormed(token);
    var k := LastDot(Read(token));
    if k >= 0 { TailWellFormed(Read(token), k); }
  }

  lemma BodyWellFormed(token: string)
    ensures WellFormed(Body(token))
  {
    ReadWellFormed(token);
    var k := LastDot(Read(token));
    if k >= 0 { HeadWellFormed(Read(token), k); }
  }

  lemma CheckedWellFormed(token: string, purpose: Purpose)
    ensures WellFormed(Checked(token, purpose))
  {
    BodyWellFormed(token);
    PayloadWellFormed(purpose, Body(token));
  }

  lemma AcceptedIsSigned(token: string, purpose: Purpose, now: int, sign: Sign, number: ToNumber)
    requires Signs(sign) && VerifyToken(token, purpose, now, sign, number).Some?
    ensures Signature(token) == SignText(sign, Checked(token, purpose))
    ensures var accepted := VerifyToken(token, purpose, now, sign, number).value;
            if purpose == Unsubscribe && DOT !in Body(token) then accepted == Body(token)
            else Current(Body(token), now, number) && accepted == Parts(Body(token))[0]
  {
    SignatureWellFormed(token);
    EncodeInjective(Signature(token), SignText(sign, Checked(token, purpose)));
  }

  lemma BodyAndSignature(token: string, body: Text, signature: Text)
    requires DOT !in signature && Read(token) == body + [DOT] + signature
    ensures Body(token) == body && Signature(token) == signature
  {
    LastDotFound(body, signature);
    assert Read(token)[..|body|] == body && Read(token)[|body| + 1..] == signature;
  }

  lemma ThreePartsRead(token: string)
    requires |Parts(Read(token))| == 3
    ensures var parts := Parts(Read(token));
            && Body(token) == CategoryPayload(parts[0], parts[1]) && Signature(token) == parts[2]
            && DOT !in parts[0]
  {
    var text, parts := Read(token), Parts(Read(token));
    Splitting.JoinOfSplit<CodeUnit>(text, DOT);
    Splitting.PartsHoldNoSeparator<CodeUnit>(text, DOT, 0);
    Splitting.PartsHoldNoSeparator<CodeUnit>(text, DOT, 2);
    assert parts == [parts[0], parts[1], parts[2]];
    Splitting.JoinThree<CodeUnit>(parts[0], parts[1], parts[2], DOT);
    BodyAndSignature(token, CategoryPayload(parts[0], parts[1]), parts[2]);
  }

  lemma AcceptedCategoryIsSigned(token: string, sign: Sign)
    requires Signs(sign) && VerifyCategoryToken(token, sign).Some?
    ensures var accepted := VerifyCategoryToken(token, sign).value;
            && Body(token) == CategoryPayload(accepted.userId, accepted.category)
            && Signature(token) == SignText(sign, Body(token))
            && DOT !in accepted.userId && accepted.category in CATEGORIES
  {
    ThreePartsRead(token);
    SignatureWellFormed(token);
    EncodeInjective(Signature(token), SignText(sign, Body(token)));
  }

  lemma CurrentHasDot(body: Text, now: int, number: ToNumber)
    requires Current(body, now, number)
    ensures DOT in body
  {
    if DOT !in body { PartsWhole(body); }
  }

  /** No token whatever both unsubscribes and resubscribes, at whatever times it is tried. */
  lemma NoTokenServesBothPurposes(token: string, now: int, later: int, sign: Sign, number: ToNumber)
    requires Signs(sign)
    ensures VerifyToken(token, Unsubscribe, now, sign, number).None?
         || VerifyToken(token, Resubscribe, later, sign, number).None?
  {
    if VerifyToken(token, Unsubscribe, now, sign, number).Some?
      && VerifyToken(token, Resubscribe, later, sign, number).Some? {
      AcceptedIsSigned(token, Unsubscribe, now, sign, number);
      AcceptedIsSigned(token, Resubscribe, later, sign, number);
      CurrentHasDot(Body(token), later, number);
      CheckedWellFormed(token, Unsubscribe);
      CheckedWellFormed(token, Resubscribe);
      SignInjective(sign, Checked(token, Unsubscribe), Checked(token, Resubscribe));
      PayloadNamesPurpose(Unsubscribe, Body(token), Resubscribe, Body(token));
    }
  }

  /** No token whatever is both a newsletter link and a notification link. */
  lemma NoTokenServesBothModules(token: string, purpose: Purpose, now: int, sign: Sign, number: ToNumber)
    requires Signs(sign)
    ensures VerifyToken(token, purpose, now, sign, number).None? || VerifyCategoryToken(token, sign).None?
  {
    if VerifyToken(token, purpose, now, sign, number).Some? && VerifyCategoryToken(token, sign).Some? {
      AcceptedIsSigned(token, purpose, now, sign, number);
      AcceptedCategoryIsSigned(token, sign);
      BodyWellFormed(token);
      CheckedWellFormed(token, purpose);
      SignInjective(sign, Checked(token, purpose), Body(token));
    }
  }

  // ----- Signatures that were issued -----

  datatype Issued =
    | Link(purpose: Purpose, id: Text, issuedAt: nat)
    | Legacy(id: Text)
    | Category(userId: Text, category: Text)

  ghost predicate IsIssued(issued: Issued) {
    match issued
    case Link(_, id, issuedAt) => IsId(id) && issuedAt <= MAX_DATE
    case Legacy(id) => IsId(id)
    case Category(userId, category) => IsId(userId) && category in CATEGORIES
  }

  /** What was signed when the link was made. */
  function Signed(issued: Issued): Text {
    match issued
    case Link(purpose, id, issuedAt) => Payload(purpose, Stamped(id, issuedAt))
    case Legacy(id) => id
    case Category(userId, category) => CategoryPayload(userId, category)
  }

  lemma SignedWellFormed(issued: Issued)
    requires IsIssued(issued)
    ensures WellFormed(Signed(issued))
  {
    match issued
    case Link(purpose, id, issuedAt) =>
      BytesWellFormed(Digits(issuedAt));
      DottedWellFormed(id, Digits(issuedAt));
      PayloadWellFormed(purpose, Stamped(id, issuedAt));
    case Legacy(_) =>
    case Category(userId, category) =>
      var k :| 0 <= k < |CATEGORIES| && CATEGORIES[k] == category;
      BytesWellFormed(CATEGORIES[k]);
      DottedWellFormed(userId, category);
  }

  lemma NameHasNoDot(purpose: Purpose)
    ensures DOT !in Name(purpose)
  {
    var first, second := "unsubscribe", "resubscribe";
    assert forall i | 0 <= i < |first| :: first[i] in first && first[i] != '.';
    assert forall i | 0 <= i < |second| :: second[i] in second && second[i] != '.';
  }

  /** A newsletter payload with a readable time is no notification's payload. */
  /** What is signed for a newsletter link has its first dot where its body has. */
  lemma PayloadFirstDot(purpose: Purpose, first: Text, rest: Text)
    requires DOT !in first
    ensures Payload(purpose, first + [DOT] + rest) == (Name(purpose) + [COLON] + first) + [DOT] + rest
    ensures DOT !in Name(purpose) + [COLON] + first
  {
    NameHasNoDot(purpose);
  }

  lemma PayloadIsNoCategory(
    purpose: Purpose, body: Text, now: int, userId: Text, category: Text, number: ToNumber)
    requires ReadsNumbers(number) && Current(body, now, number)
    requires DOT !in userId && category in CATEGORIES
    ensures Payload(purpose, body) != CategoryPayload(userId, category)
  {
    if Payload(purpose, body) == CategoryPayload(userId, category) {
      CurrentHasDot(body, now, number);
      var rest := FirstPart(body);
      PayloadFirstDot(purpose, Parts(body)[0], rest);
      DottedInjective(Name(purpose) + [COLON] + Parts(body)[0], rest, userId, category);
      CategoriesArePlain(category);
      PartsWhole(category);
    }
  }

  lemma StampedIsNoCategory(purpose: Purpose, id: Text, issuedAt: nat, userId: Text, category: Text)
    requires IsId(id) && DOT !in userId && category in CATEGORIES
    ensures Payload(purpose, Stamped(id, issuedAt)) != CategoryPayload(userId, category)
  {
    if Payload(purpose, Stamped(id, issuedAt)) == CategoryPayload(userId, category) {
      PayloadFirstDot(purpose, id, Digits(issuedAt));
      DottedInjective(Name(purpose) + [COLON] + id, Digits(issuedAt), userId, category);
      CategoriesArePlain(category);
    }
  }

  lemma HasDot(a: Text, b: Text)
    ensures DOT in a + [DOT] + b
  {
    assert (a + [DOT] + b)[|a|] == DOT;
  }

  lemma PayloadHasDot(purpose: Purpose, body: Text)
    requires DOT in body
    ensures DOT in Payload(purpose, body)
  {
    var k :| 0 <= k < |body| && body[k] == DOT;
    assert Payload(purpose, body)[|Name(purpose)| + 1 + k] == DOT;
  }

  /** Whatever token carries an issued signature, a newsletter check accepts it only for the
      purpose, the subscriber and the lifetime it was issued for. */
  lemma SignatureBindsLink(
    token: string, issued: Issued, asked: Purpose, now: int, sign: Sign, number: ToNumber)
    requires Signs(sign) && ReadsNumbers(number) && IsIssued(issued)
    requires Signature(token) == SignText(sign, Signed(issued))
    ensures var accepted := VerifyToken(token, asked, now, sign, number);
            accepted.Some? ==>
              || (issued == Legacy(accepted.value) && asked == Unsubscribe)
              || (&& issued.Link? && issued.purpose == asked && issued.id == accepted.value
                  && now - issued.issuedAt <= TTL_MS && issued.issuedAt <= now + CLOCK_SKEW_MS)
  {
    if VerifyToken(token, asked, now, sign, number).Some? {
      AcceptedIsSigned(token, asked, now, sign, number);
      var body := Body(token);
      SignedWellFormed(issued);
      CheckedWellFormed(token, asked);
      SignInjective(sign, Signed(issued), Checked(token, asked));
      match issued {
        case Link(purpose, id, issuedAt) =>
          HasDot(id, Digits(issuedAt));
          PayloadHasDot(purpose, Stamped(id, issuedAt));
          PayloadNamesPurposeWhen(purpose, Stamped(id, issuedAt), asked, body);
          PartsStamped(id, issuedAt);
          CurrentStamped(id, issuedAt, now, number);
        case Legacy(id) =>
          LegacyIsNoPayload(id, asked, body, now, number);
        case Category(userId, category) =>
          HasDot(userId, category);
          CategoryIsNoPayload(asked, body, now, userId, category, number);
      }
    }
  }

  lemma PayloadNamesPurposeWhen(p: Purpose, x: Text, q: Purpose, y: Text)
    ensures Payload(p, x) == Payload(q, y) ==> p == q && x == y
  {
    if Payload(p, x) == Payload(q, y) { PayloadNamesPurpose(p, x, q, y); }
  }

  lemma LegacyIsNoPayload(id: Text, purpose: Purpose, body: Text, now: int, number: ToNumber)
    requires DOT !in id
    ensures Current(body, now, number) ==> id != Payload(purpose, body)
  {
    if Current(body, now, number) {
      CurrentHasDot(body, now, number);
      PayloadHasDot(purpose, body);
    }
  }

  lemma CategoryIsNoPayload(
    purpose: Purpose, body: Text, now: int, userId: Text, category: Text, number: ToNumber)
    requires ReadsNumbers(number) && DOT !in userId && category in CATEGORIES
    ensures Current(body, now, number) ==> Payload(purpose, body) != CategoryPayload(userId, category)
  {
    if Current(body, now, number) {
      PayloadIsNoCategory(purpose, body, now, userId, category, number);
    }
  }

  /** Whatever token carries an issued signature, a notification check accepts it only as the
      user and category it was issued for. */
  lemma SignatureBindsCategory(token: string, issued: Issued, sign: Sign)
    requires Signs(sign) && IsIssued(issued) && Signature(token) == SignText(sign, Signed(issued))
    ensures var accepted := VerifyCategoryToken(token, sign);
            accepted.Some? ==> issued == Category(accepted.value.userId, accepted.value.category)
  {
    if VerifyCategoryToken(token, sign).Some? {
      AcceptedCategoryIsSigned(token, sign);
      var accepted := VerifyCategoryToken(token, sign).value;
      SignedWellFormed(issued);
      BodyWellFormed(token);
      SignInjective(sign, Signed(issued), Body(token));
      match issued {
        case Link(purpose, id, issuedAt) =>
          StampedIsNoCategory(purpose, id, issuedAt, accepted.userId, accepted.category);
        case Legacy(_) =>
          HasDot(accepted.userId, accepted.category);
        case Category(userId, category) =>
          DottedInjective(userId, category, accepted.userId, accepted.category);
      }
    }
  }
}
