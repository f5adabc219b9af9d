/** Public handles: cleaning a stem, listing candidates, picking a free one. */
module Handles {
  import opened Options
  import opened Decimals

  predicate Alphanumeric(c: char) {
    'a' <= c <= 'z' || '0' <= c <= '9'
  }

  predicate Allowed(c: char) {
    Alphanumeric(c) || c == '-'
  }

  predicate AllAllowed(text: string) {
    forall c | c in text :: Allowed(c)
  }

  /** Lower-casing leaves text alone that is already made of handle characters. */
  ghost predicate KeepsHandleText(lower: string -> string) {
    forall text | AllAllowed(text) :: lower(text) == text
  }

  const RESERVED: set<string> := {
    "admin", "administrator", "api", "auth", "billing", "dashboard", "developers", "docs",
    "events", "hackathons", "hackvillage", "hiring", "invite", "invites", "judge", "login",
    "main", "me", "onboarding", "organizer", "orgs", "profiles", "root", "settings", "signin",
    "signup", "support", "system", "trust", "null", "undefined"
  }

  const MAX_LENGTH := 30
  const MAX_CANDIDATES := 20
  const DEFAULT_LIMIT := 99

  // ----- Validation -----

  datatype HandleError = TooShort | TooLong | NotLowercase | BadCharacters | ReservedWord

  predicate MatchesPattern(handle: string) {
    && 3 <= |handle| <= MAX_LENGTH
    && Alphanumeric(handle[0]) && Alphanumeric(handle[|handle| - 1])
    && AllAllowed(handle)
  }

  predicate Assignable(handle: string) {
    MatchesPattern(handle) && handle !in RESERVED
  }

  /** What is wrong with a handle, if anything. */
  function ValidateHandle(handle: string, lower: string -> string): (error: Option<HandleError>)
    requires KeepsHandleText(lower)
    ensures error.None? <==>
              && 3 <= |handle| <= 30 && handle[0] != '-' && handle[|handle| - 1] != '-' && handle !in RESERVED
              && forall c | c in handle :: 'a' <= c <= 'z' || '0' <= c <= '9' || c == '-'
    ensures error.None? <==> Assignable(handle)
    ensures error == Some(TooShort) <==> |handle| < 3
    ensures error == Some(TooLong) <==> |handle| > 30
    ensures error == Some(ReservedWord) <==> MatchesPattern(handle) && handle in RESERVED
    ensures error == Some(NotLowercase) <==> 3 <= |handle| <= 30 && handle != lower(handle)
  {
    assert handle != "" ==> handle[0] in handle && handle[|handle| - 1] in handle;
    if |handle| < 3 then Some(TooShort)
    else if |handle| > MAX_LENGTH then Some(TooLong)
    else if handle != lower(handle) then Some(NotLowercase)
    else if !MatchesPattern(handle) then Some(BadCharacters)
    else if handle in RESERVED then Some(ReservedWord)
    else None
  }

  // ----- Cleaning a stem -----

  /** The text after its longest prefix of characters in `run`. */
  function AfterRun(text: string, run: char -> bool): (rest: string)
    ensures |rest| <= |text|
    ensures text != "" && run(text[0]) ==> |rest| < |text|
    ensures rest != "" ==> !run(rest[0])
  {
    if text != "" && run(text[0]) then AfterRun(text[1..], run) else text
  }

  /** Every maximal run of characters in `run` becomes one hyphen. */
  function Collapse(text: string, run: char -> bool): (collapsed: string)
    ensures |collapsed| <= |text|
    decreases |text|
  {
    if text == "" then ""
    else if run(text[0]) then "-" + Collapse(AfterRun(text, run), run)
    else [text[0]] + Collapse(text[1..], run)
  }

  function TrimEnd(text: string): (trimmed: string)
    ensures trimmed <= text
    ensures trimmed != "" ==> trimmed[|trimmed| - 1] != '-'
  {
    if text != "" && text[|text| - 1] == '-' then TrimEnd(text[..|text| - 1]) else text
  }

  function SanitizeHandleStem(input: string, lower: string -> string): string {
    var plain := Collapse(lower(input), c => !Allowed(c));
    var single := Collapse(plain, c => c == '-');
    TrimEnd(AfterRun(single, c => c == '-'))
  }

  /** The maximal runs of letters and digits in a text, in order. */
  function Words(text: string): (words: seq<string>)
    ensures text != "" && Alphanumeric(text[0]) ==> words != []
  {
    if text == "" then []
    else if !Alphanumeric(text[0]) then Words(text[1..])
    else
      var rest := Words(text[1..]);
      if |text| > 1 && Alphanumeric(text[1])
      then [[text[0]] + rest[0]] + rest[1..]
      else [[text[0]]] + rest
  }

  function Join(words: seq<string>): string {
    if words == [] then "" else if |words| == 1 then words[0] else words[0] + "-" + Join(words[1..])
  }

  predicate DoubledAt(text: string, i: nat)
    requires i + 1 < |text|
  {
    text[i] == '-' && text[i + 1] == '-'
  }

  predicate Single(text: string) {
    forall i: nat | i + 1 < |text| :: !DoubledAt(text, i)
  }

  /** Handle characters only, and every hyphen stands between two letters or digits. */
  predicate Clean(text: string) {
    && AllAllowed(text) && Single(text)
    && (text != "" ==> text[0] != '-' && text[|text| - 1] != '-')
  }

  lemma {:induction false} WordsAfterRun(text: string, run: char -> bool)
    requires forall c | run(c) :: !Alphanumeric(c)
    ensures Words(AfterRun(text, run)) == Words(text)
  {
    if text == "" || !run(text[0]) {
    } else {
      WordsAfterRun(text[1..], run);
    }
  }

  lemma {:induction false} WordsCollapse(text: string, run: char -> bool)
    requires forall c | run(c) :: !Alphanumeric(c)
    ensures Words(Collapse(text, run)) == Words(text)
    decreases |text|
  {
    if text == "" {
    } else if run(text[0]) {
      WordsAfterRun(text, run);
      WordsCollapse(AfterRun(text, run), run);
      assert Collapse(text, run)[1..] == Collapse(AfterRun(text, run), run);
    } else {
      WordsCollapse(text[1..], run);
      assert Collapse(text, run)[1..] == Collapse(text[1..], run);
    }
  }

  lemma {:induction false} WordsDropHyphen(text: string)
    ensures Words(text + "-") == Words(text)
  {
    if text == "" {
      assert "-"[1..] == "" && "" + "-" == "-";
      assert Words("-") == Words("-"[1..]);
    } else {
      WordsDropHyphen(text[1..]);
      assert (text + "-")[1..] == text[1..] + "-";
    }
  }

  lemma {:induction false} WordsTrimEnd(text: string)
    ensures Words(TrimEnd(text)) == Words(text)
  {
    if text == "" || text[|text| - 1] != '-' {
    } else {
      WordsTrimEnd(text[..|text| - 1]);
      WordsDropHyphen(text[..|text| - 1]);
      assert text == text[..|text| - 1] + "-";
    }
  }

  lemma CleanTail(text: string, k: nat)
    requires Clean(text) && k < |text| && text[k] != '-'
    ensures Clean(text[k..])
  {
    forall i: nat | i + 1 < |text[k..]| ensures !DoubledAt(text[k..], i) {
      assert !DoubledAt(text, k + i);
    }
  }

  lemma {:induction false} CleanIsJoined(text: string)
    requires Clean(text)
    ensures Join(Words(text)) == text
    decreases |text|
  {
    assert text != "" ==> text[0] in text && Alphanumeric(text[0]);
    if text == "" {
    } else if |text| == 1 {
      assert text == [text[0]] && Words(text[1..]) == [];
    } else if text[1] != '-' {
      CleanTail(text, 1);
      CleanIsJoined(text[1..]);
      assert text[1] in text && Alphanumeric(text[1]);
      JoinLonger(text[0], Words(text[1..]));
      assert text == [text[0]] + text[1..];
    } else {
      assert !DoubledAt(text, 1);
      CleanTail(text, 2);
      CleanIsJoined(text[2..]);
      assert text[1..][1..] == text[2..];
      assert Words(text[1..]) == Words(text[2..]);
      assert Words(text) == [[text[0]]] + Words(text[2..]);
      assert text == [text[0]] + "-" + text[2..];
    }
  }

  lemma JoinLonger(c: char, words: seq<string>)
    requires words != []
    ensures Join([[c] + words[0]] + words[1..]) == [c] + Join(words)
  {
    var longer := [[c] + words[0]] + words[1..];
    assert longer[1..] == words[1..];
  }

  lemma {:induction false} CollapseReplaces(text: string, run: char -> bool)
    ensures forall c | c in Collapse(text, run) :: c == '-' || !run(c)
    decreases |text|
  {
    if text == "" {
    } else if run(text[0]) {
      CollapseReplaces(AfterRun(text, run), run);
    } else {
      CollapseReplaces(text[1..], run);
    }
  }

  lemma {:induction false} CollapseMembers(text: string, run: char -> bool)
    ensures forall c | c in Collapse(text, run) :: c == '-' || c in text
    decreases |text|
  {
    if text == "" {
    } else if run(text[0]) {
      CollapseMembers(AfterRun(text, run), run);
      AfterRunIsSuffix(text, run);
    } else {
      CollapseMembers(text[1..], run);
    }
  }

  lemma {:induction false} AfterRunIsSuffix(text: string, run: char -> bool)
    ensures AfterRun(text, run) == text[|text| - |AfterRun(text, run)|..]
  {
    if text == "" || !run(text[0]) {
    } else {
      AfterRunIsSuffix(text[1..], run);
    }
  }

  lemma {:induction false} CollapsedHyphensAreSingle(text: string, run: char -> bool)
    requires forall c :: run(c) <==> c == '-'
    ensures Single(Collapse(text, run))
    decreases |text|
  {
    if text == "" {
    } else {
      var rest := if run(text[0]) then AfterRun(text, run) else text[1..];
      CollapsedHyphensAreSingle(rest, run);
      var collapsed, tail := Collapse(text, run), Collapse(rest, run);
      forall i: nat | i + 1 < |collapsed| ensures !DoubledAt(collapsed, i) {
        if i > 0 {
          assert !DoubledAt(tail, i - 1);
        }
      }
    }
  }

  lemma SingleSlice(text: string, lo: nat, hi: nat)
    requires Single(text) && lo <= hi <= |text|
    ensures Single(text[lo..hi])
  {
    forall i: nat | i + 1 < hi - lo ensures !DoubledAt(text[lo..hi], i) {
      assert !DoubledAt(text, lo + i);
    }
  }

  lemma SliceAllowed(text: string, lo: nat, hi: nat)
    requires AllAllowed(text) && lo <= hi <= |text|
    ensures AllAllowed(text[lo..hi])
  {
    assert forall i | lo <= i < hi :: text[i] in text;
  }

  lemma TrimmedIsClean(text: string)
    requires AllAllowed(text) && Single(text)
    ensures Clean(TrimEnd(AfterRun(text, c => c == '-')))
  {
    var dash := c => c == '-';
    var rest := AfterRun(text, dash);
    AfterRunIsSuffix(text, dash);
    var from := |text| - |rest|;
    var n := |TrimEnd(rest)|;
    SingleSlice(text, from, from + n);
    assert TrimEnd(rest) == text[from..from + n];
    SliceAllowed(text, from, from + n);
    if n > 0 { assert TrimEnd(rest)[0] == rest[0] && !dash(rest[0]); }
  }

  lemma StemIsClean(input: string, lower: string -> string)
    ensures Clean(SanitizeHandleStem(input, lower))
  {
    var plain := Collapse(lower(input), c => !Allowed(c));
    CollapseReplaces(lower(input), c => !Allowed(c));
    CollapseMembers(plain, c => c == '-');
    CollapsedHyphensAreSingle(plain, c => c == '-');
    TrimmedIsClean(Collapse(plain, c => c == '-'));
  }

  /** The stem is the words of the lower-cased input, joined by single hyphens. */
  lemma StemJoinsWords(input: string, lower: string -> string)
    ensures SanitizeHandleStem(input, lower) == Join(Words(lower(input)))
  {
    var plain := Collapse(lower(input), c => !Allowed(c));
    var single := Collapse(plain, c => c == '-');
    WordsCollapse(lower(input), c => !Allowed(c));
    WordsCollapse(plain, c => c == '-');
    WordsAfterRun(single, c => c == '-');
    WordsTrimEnd(AfterRun(single, c => c == '-'));
    StemIsClean(input, lower);
    CleanIsJoined(SanitizeHandleStem(input, lower));
  }

  /** Cleaning changes a text exactly when it is not clean already. */
  lemma StemFixedExactly(input: string, lower: string -> string)
    requires KeepsHandleText(lower)
    ensures SanitizeHandleStem(input, lower) == input <==> Clean(input)
  {
    StemIsClean(input, lower);
    if Clean(input) {
      StemJoinsWords(input, lower);
      CleanIsJoined(input);
    }
  }

  lemma StemIdempotent(input: string, lower: string -> string)
    requires KeepsHandleText(lower)
    ensures var stem := SanitizeHandleStem(input, lower);
            SanitizeHandleStem(stem, lower) == stem
  {
    StemIsClean(input, lower);
    StemFixedExactly(SanitizeHandleStem(input, lower), lower);
  }

  // ----- Candidates -----

  function Cut(text: string, length: nat): string {
    if |text| <= length then text else text[..length]
  }

  /** Candidate number `i`: the stem, a hyphen and the number, cut to thirty characters. */
  function Numbered(stem: string, i: nat): string {
    Cut(stem + "-" + Decimal(i), MAX_LENGTH)
  }

  function IfAssignable(handle: string): seq<string> {
    if Assignable(handle) then [handle] else []
  }

  /** The assignable candidates among the stem itself and numbers 2 to `limit`. */
  function Kept(stem: string, limit: nat): seq<string> {
    if limit < 2 then IfAssignable(stem)
    else Kept(stem, limit - 1) + IfAssignable(Numbered(stem, limit))
  }

  function FirstFew(handles: seq<string>): seq<string> {
    if |handles| <= MAX_CANDIDATES then handles else handles[..MAX_CANDIDATES]
  }

  /** The stem with a hyphen and a number from 2 to the limit, cut to thirty characters. */
  ghost predicate IsNumbered(stem: string, limit: nat, handle: string) {
    exists i | 2 <= i <= limit :: handle == CutToThirty(stem + "-" + Decimal(i))
  }

  ghost function CutToThirty(text: string): string {
    if |text| <= 30 then text else text[..30]
  }

  lemma OneMoreNumber(stem: string, limit: nat, handle: string)
    requires limit >= 2
    ensures IsNumbered(stem, limit, handle) <==> IsNumbered(stem, limit - 1, handle) || handle == Numbered(stem, limit)
  {
    assert Numbered(stem, limit) == CutToThirty(stem + "-" + Decimal(limit));
  }

  lemma OneMoreKept(stem: string, limit: nat, handle: string)
    requires limit >= 2
    ensures handle in Kept(stem, limit)
        <==> handle in Kept(stem, limit - 1) || (Assignable(handle) && handle == Numbered(stem, limit))
  {
    var last := IfAssignable(Numbered(stem, limit));
    assert handle in Kept(stem, limit - 1) + last <==> handle in Kept(stem, limit - 1) || handle in last;
  }

  /** A text is among them exactly when it is assignable and is the stem or numbered. */
  lemma {:induction false} KeptExactly(stem: string, limit: nat, handle: string)
    ensures handle in Kept(stem, limit) <==> Assignable(handle) && (handle == stem || IsNumbered(stem, limit, handle))
  {
    if limit < 2 {
    } else {
      KeptExactly(stem, limit - 1, handle);
      OneMoreNumber(stem, limit, handle);
      OneMoreKept(stem, limit, handle);
    }
  }

  /** An assignable stem comes first. */
  lemma {:induction false} StemComesFirst(stem: string, limit: nat)
    requires Assignable(stem)
    ensures Kept(stem, limit) != [] && Kept(stem, limit)[0] == stem
  {
    if limit < 2 {
    } else {
      StemComesFirst(stem, limit - 1);
    }
  }

  /** What the loop returns; `stamp` is the current time in base 36. */
  function Candidates(stem: string, limit: nat, stamp: string): seq<string> {
    var found := FirstFew(Kept(stem, limit));
    if found == [] then ["dev-" + stamp] else found
  }

  /** The first twenty of them, or the fallback when there is none. */
  lemma CandidatesExactly(stem: string, limit: nat, stamp: string)
    ensures var kept, candidates := Kept(stem, limit), Candidates(stem, limit, stamp);
            && (kept == [] ==> candidates == ["dev-" + stamp])
            && (kept != [] ==> candidates <= kept && |candidates| == if |kept| <= 20 then |kept| else 20)
  {
  }

  predicate IsStamp(stamp: string) {
    1 <= |stamp| <= 26 && forall c | c in stamp :: Alphanumeric(c)
  }

  lemma {:induction false} KeptGrows(stem: string, few: nat, many: nat)
    requires few <= many
    ensures Kept(stem, few) <= Kept(stem, many)
    decreases many
  {
    if few == many {
    } else {
      KeptGrows(stem, few, many - 1);
    }
  }

  lemma {:induction false} KeptAssignable(stem: string, limit: nat)
    ensures forall handle | handle in Kept(stem, limit) :: Assignable(handle)
  {
    if limit < 2 {
    } else {
      KeptAssignable(stem, limit - 1);
    }
  }

  lemma NoReservedHyphen(handle: string)
    requires |handle| > 3 && handle[3] == '-'
    ensures handle !in RESERVED
  {
  }

  lemma FallbackAssignable(stamp: string)
    requires IsStamp(stamp)
    ensures Assignable("dev-" + stamp)
  {
    var handle := "dev-" + stamp;
    NoReservedHyphen(handle);
    assert handle[|handle| - 1] == stamp[|stamp| - 1];
    assert forall c | c in handle :: c in "dev-" || c in stamp;
  }

  method CandidateHandles(base: string, limit: nat, lower: string -> string, stamp: string)
    returns (candidates: seq<string>)
    requires IsStamp(stamp)
    ensures candidates == Candidates(SanitizeHandleStem(base, lower), limit, stamp)
    ensures 1 <= |candidates| <= MAX_CANDIDATES
    ensures forall candidate | candidate in candidates :: Assignable(candidate)
  {
    var stem := SanitizeHandleStem(base, lower);
    candidates := [];
    if Assignable(stem) {
      candidates := candidates + [stem];
    }
    var i := 2;
    while i <= limit && |candidates| < MAX_CANDIDATES
      invariant 2 <= i && (i <= limit + 1 || i == 2)
      invariant candidates == Kept(stem, i - 1) && |candidates| <= MAX_CANDIDATES
    {
      var candidate := Numbered(stem, i);
      if Assignable(candidate) {
        candidates := candidates + [candidate];
      }
      i := i + 1;
    }
    assert Kept(stem, limit) == Kept(stem, if limit < 2 then 1 else limit);
    KeptGrows(stem, i - 1, if limit < 2 then 1 else limit);
    KeptAssignable(stem, i - 1);
    FallbackAssignable(stamp);
    if |candidates| == 0 {
      candidates := candidates + ["dev-" + stamp];
    }
  }

  ghost predicate Distinct(handles: seq<string>) {
    forall i, j | 0 <= i < j < |handles| :: handles[i] != handles[j]
  }

  /** The stems that yield the same candidate twice: at 28 characters numbers 10 to 19 are cut
      to one digit, and from 30 on the number is cut off altogether. */
  predicate Repeats(stem: string) {
    |stem| == 28 || (|stem| >= MAX_LENGTH && stem[MAX_LENGTH - 1] != '-')
  }

  lemma TwoDigits(i: nat)
    requires 10 <= i <= 99
    ensures Decimal(i) == [DIGITS[i / 10], DIGITS[i % 10]]
  {
    assert Decimal(i / 10) == [DIGITS[i / 10]];
  }

  lemma NumberedUncut(stem: string, i: nat)
    requires |stem| <= 27 && 2 <= i <= DEFAULT_LIMIT
    ensures Numbered(stem, i) == stem + "-" + Decimal(i)
  {
    if i >= 10 { TwoDigits(i); }
  }

  lemma NumberedDiffer(stem: string, i: nat, j: nat)
    requires |stem| <= 27 && 2 <= i < j <= DEFAULT_LIMIT
    ensures Numbered(stem, i) != Numbered(stem, j)
  {
    NumberedUncut(stem, i);
    NumberedUncut(stem, j);
    if Numbered(stem, i) == Numbered(stem, j) {
      var prefix := stem + "-";
      assert Numbered(stem, i)[|prefix|..] == Decimal(i) && Numbered(stem, j)[|prefix|..] == Decimal(j);
      DecimalInjective(i, j);
    }
  }

  lemma {:induction false} KeptAvoids(stem: string, limit: nat, j: nat)
    requires |stem| <= 27 && 2 <= j <= DEFAULT_LIMIT && limit < j
    ensures Numbered(stem, j) !in Kept(stem, limit)
  {
    if limit < 2 {
      NumberedUncut(stem, j);
    } else {
      KeptAvoids(stem, limit - 1, j);
      NumberedDiffer(stem, limit, j);
    }
  }

  lemma {:induction false} ShortStemsDistinct(stem: string, limit: nat)
    requires |stem| <= 27 && limit <= DEFAULT_LIMIT
    ensures Distinct(Kept(stem, limit))
  {
    if limit < 2 {
    } else {
      ShortStemsDistinct(stem, limit - 1);
      KeptAvoids(stem, limit - 1, limit);
    }
  }

  lemma {:induction false} OnlyTheStem(stem: string, limit: nat)
    requires forall i | 2 <= i <= limit :: !Assignable(Numbered(stem, i))
    ensures Kept(stem, limit) == IfAssignable(stem)
  {
    if limit < 2 {
    } else {
      OnlyTheStem(stem, limit - 1);
    }
  }

  lemma {:induction false} KeptLength(stem: string, limit: nat)
    requires limit >= 1
    ensures |Kept(stem, limit)| <= limit
  {
    if limit < 2 {
    } else {
      KeptLength(stem, limit - 1);
    }
  }

  /** Two successive numbers that give the same assignable candidate show it twice. */
  lemma RepeatedCandidate(stem: string, i: nat, stamp: string)
    requires 3 <= i <= MAX_CANDIDATES
    requires Assignable(Numbered(stem, i)) && Numbered(stem, i - 1) == Numbered(stem, i)
    ensures !Distinct(Candidates(stem, DEFAULT_LIMIT, stamp))
  {
    var before := Kept(stem, i - 2);
    KeptLength(stem, i - 2);
    assert Kept(stem, i) == before + [Numbered(stem, i), Numbered(stem, i)];
    KeptGrows(stem, i, DEFAULT_LIMIT);
    var candidates := Candidates(stem, DEFAULT_LIMIT, stamp);
    assert candidates[|before|] == candidates[|before| + 1];
  }

  lemma LongPrefixAssignable(stem: string, length: nat)
    requires Clean(stem) && 14 <= length <= |stem| && length <= MAX_LENGTH
    ensures Assignable(stem[..length]) <==> stem[length - 1] != '-'
  {
    assert stem[length - 1] in stem && stem[0] in stem;
  }

  lemma LongStemsRepeat(stem: string, stamp: string)
    requires Clean(stem) && Repeats(stem)
    ensures !Distinct(Candidates(stem, DEFAULT_LIMIT, stamp))
  {
    if |stem| == 28 {
      TwoDigits(10);
      TwoDigits(11);
      var cut := stem + "-1";
      assert Numbered(stem, 10) == cut && Numbered(stem, 11) == cut;
      assert forall c | c in cut :: c in stem || c in "-1";
      assert cut[29] == '1' && cut[0] == stem[0] && stem[0] in stem;
      RepeatedCandidate(stem, 11, stamp);
    } else {
      LongPrefixAssignable(stem, MAX_LENGTH);
      RepeatedCandidate(stem, 3, stamp);
    }
  }

  lemma LongStemsWithoutRepeats(stem: string, stamp: string)
    requires Clean(stem) && |stem| > 28 && !Repeats(stem)
    ensures Distinct(Candidates(stem, DEFAULT_LIMIT, stamp))
  {
    forall i: nat | 2 <= i <= DEFAULT_LIMIT ensures !Assignable(Numbered(stem, i)) {
      if |stem| == 29 {
        assert Numbered(stem, i)[29] == '-';
      } else {
      }
    }
    OnlyTheStem(stem, DEFAULT_LIMIT);
  }

  /** With the default limit the candidates for a clean stem are distinct exactly when the stem
      does not repeat. */
  lemma DistinctExactly(stem: string, stamp: string)
    requires Clean(stem)
    ensures Distinct(Candidates(stem, DEFAULT_LIMIT, stamp)) <==> !Repeats(stem)
  {
    if Repeats(stem) {
      LongStemsRepeat(stem, stamp);
    } else if |stem| <= 27 {
      ShortStemsDistinct(stem, DEFAULT_LIMIT);
    } else {
      LongStemsWithoutRepeats(stem, stamp);
    }
  }

  // ----- Stems from e-mail addresses -----

  function BeforeAt(email: string): string {
    if email == "" || email[0] == '@' then "" else [email[0]] + BeforeAt(email[1..])
  }

  function StemFromEmail(email: string, lower: string -> string): string {
    var stem := Cut(SanitizeHandleStem(BeforeAt(email), lower), 24);
    if stem == "" then "developer" else stem
  }

  /** Cutting can leave a trailing hyphen, but the candidates built from an e-mail address are
      always distinct. */
  lemma EmailCandidatesDistinct(email: string, lower: string -> string, stamp: string)
    requires KeepsHandleText(lower)
    ensures var base := StemFromEmail(email, lower);
            Distinct(Candidates(SanitizeHandleStem(base, lower), DEFAULT_LIMIT, stamp))
  {
    var base := StemFromEmail(email, lower);
    StemIsClean(BeforeAt(email), lower);
    assert AllAllowed(base);
    StemIsClean(base, lower);
    DistinctExactly(SanitizeHandleStem(base, lower), stamp);
  }

  /** The first characters of the local part's words, 24 at most, joined by hyphens; "developer" when
      it has no letter or digit. */
  lemma StemFromEmailExactly(local: string, domain: string, lower: string -> string)
    requires '@' !in local
    ensures var joined := Join(Words(lower(local)));
            var stem := StemFromEmail(local + "@" + domain, lower);
            stem == if joined == "" then "developer" else if |joined| <= 24 then joined else joined[..24]
  {
    BeforeAtExactly(local, domain);
    StemJoinsWords(local, lower);
  }

  lemma {:induction false} BeforeAtExactly(local: string, domain: string)
    requires '@' !in local
    ensures BeforeAt(local + "@" + domain) == local
  {
    if local == "" {
    } else {
      assert (local + "@" + domain)[1..] == local[1..] + "@" + domain;
      BeforeAtExactly(local[1..], domain);
    }
  }

  // ----- Picking one -----

  ghost predicate IsTaken(candidate: string, taken: seq<string>, lower: string -> string) {
    exists i | 0 <= i < |taken| :: lower(taken[i]) == lower(candidate)
  }

  /** The first candidate nobody has taken, in any case; nothing exactly when all are taken. */
  method FirstAvailableHandle(candidates: seq<string>, taken: seq<string>, lower: string -> string)
    returns (found: Option<string>)
    ensures found.None? <==> forall i | 0 <= i < |candidates| :: IsTaken(candidates[i], taken, lower)
    ensures found.Some? ==>
              exists k | 0 <= k < |candidates| ::
                && found.value == candidates[k] && !IsTaken(candidates[k], taken, lower)
                && forall i | 0 <= i < k :: IsTaken(candidates[i], taken, lower)
  {
    var takenSet := set handle | handle in taken :: lower(handle);
    for k := 0 to |candidates|
      invariant forall i | 0 <= i < k :: IsTaken(candidates[i], taken, lower)
    {
      if lower(candidates[k]) !in takenSet {
        return Some(candidates[k]);
      }
    }
    return None;
  }
}
