/** The hackathon directory's query, printed in its links and parsed from its address. */
module ListingUrl {
  import opened Options
  import opened Utf8
  import opened FormUrl
  import Splitting

  const PHASES: seq<seq<Byte>> := [Ascii("ongoing"), Ascii("upcoming"), Ascii("past")]

  const CATEGORIES: seq<seq<Byte>> := [
    Ascii("ai"), Ascii("web3"), Ascii("fintech"), Ascii("health"), Ascii("agritech"),
    Ascii("climate"), Ascii("edtech"), Ascii("civic"), Ascii("mobility"), Ascii("security")
  ]

  const VENUES: seq<seq<Byte>> := [Ascii("online"), Ascii("in-person"), Ascii("hybrid")]

  const PRIZES: seq<seq<Byte>> := [Ascii("under-250k"), Ascii("250k-400k"), Ascii("400k-plus")]

  const RECOMMENDED: seq<Byte> := Ascii("recommended")
  const SORTS: seq<seq<Byte>> := [RECOMMENDED, Ascii("closing"), Ascii("prize"), Ascii("newest")]

  const GRID: seq<Byte> := Ascii("grid")
  const LIST: seq<Byte> := Ascii("list")

  const MAX_QUERY_LENGTH := 80

  const PATH := Ascii("/hackathons")
  const QUESTION: Byte := 0x3F
  const HASH: Byte := 0x23
  const FRAGMENT := Ascii("directory")

  const FILTER: seq<Byte> := Ascii("filter")
  const CATEGORY: seq<Byte> := Ascii("category")
  const VENUE: seq<Byte> := Ascii("venue")
  const PRIZE: seq<Byte> := Ascii("prize")
  const Q: seq<Byte> := Ascii("q")
  const SORT: seq<Byte> := Ascii("sort")
  const VIEW: seq<Byte> := Ascii("view")

  datatype Query = Query(
    phase: Option<Text>, category: Option<Text>, venue: Option<Text>, prize: Option<Text>,
    q: Text, sort: Text, view: Text)

  /** Every field but the search text holds one of its keys. */
  predicate IsQuery(query: Query) {
    && (query.phase.Some? ==> query.phase.value in PHASES)
    && (query.category.Some? ==> query.category.value in CATEGORIES)
    && (query.venue.Some? ==> query.venue.value in VENUES)
    && (query.prize.Some? ==> query.prize.value in PRIZES)
    && query.sort in SORTS && (query.view == GRID || query.view == LIST)
  }

  // ----- Trimming -----

  /** What `trim` removes: white space and line terminators (ECMA-262, section 12). */
  predicate IsSpace(unit: CodeUnit) {
    || 0x9 <= unit <= 0xD || unit == 0x20 || unit == 0xA0 || unit == 0x1680
    || 0x2000 <= unit <= 0x200A || unit == 0x2028 || unit == 0x2029 || unit == 0x202F
    || unit == 0x205F || unit == 0x3000 || unit == 0xFEFF
  }

  function TrimStart(text: Text): Text {
    if text != [] && IsSpace(text[0]) then TrimStart(text[1..]) else text
  }

  function TrimEnd(text: Text): Text {
    if text != [] && IsSpace(text[|text| - 1]) then TrimEnd(text[..|text| - 1]) else text
  }

  function Trim(text: Text): Text {
    TrimEnd(TrimStart(text))
  }

  /** No white space at either end. */
  predicate Trimmed(text: Text) {
    text != [] ==> !IsSpace(text[0]) && !IsSpace(text[|text| - 1])
  }

  function Cut(text: Text): Text {
    if |text| <= MAX_QUERY_LENGTH then text else text[..MAX_QUERY_LENGTH]
  }

  // ----- Parsing -----

  /** The first value given for a name. */
  function First(pairs: seq<Pair>, name: Text): Option<Text> {
    if pairs == [] then None
    else if pairs[0].name == name then Some(pairs[0].value)
    else First(pairs[1..], name)
  }

  function OneOf(value: Option<Text>, keys: seq<Text>): Option<Text> {
    if value.Some? && value.value in keys then value else None
  }

  function OrElse(value: Option<Text>, default: Text): Text {
    if value.Some? then value.value else default
  }

  function ParseListingQuery(pairs: seq<Pair>): (query: Query)
    ensures IsQuery(query) && |query.q| <= MAX_QUERY_LENGTH
  {
    Query(
      OneOf(First(pairs, FILTER), PHASES),
      OneOf(First(pairs, CATEGORY), CATEGORIES),
      OneOf(First(pairs, VENUE), VENUES),
      OneOf(First(pairs, PRIZE), PRIZES),
      Cut(Trim(OrElse(First(pairs, Q), []))),
      OrElse(OneOf(First(pairs, SORT), SORTS), RECOMMENDED),
      if First(pairs, VIEW) == Some(LIST) then LIST else GRID)
  }

  /** The query part of an address: after the first `?`, up to the fragment. */
  function Search(address: seq<Byte>): seq<Byte> {
    var beforeHash := address[..Splitting.IndexOf(address, HASH)];
    var k := Splitting.IndexOf(beforeHash, QUESTION);
    if k < |beforeHash| then beforeHash[k + 1..] else []
  }

  function ParseAddress(address: seq<Byte>): Query {
    ParseListingQuery(Parse(Search(address)))
  }

  // ----- Printing -----

  function Without(pairs: seq<Pair>, name: Text): seq<Pair> {
    if pairs == [] then []
    else (if pairs[0].name == name then [] else [pairs[0]]) + Without(pairs[1..], name)
  }

  /** `URLSearchParams.set`: the name's first pair gets the value and its others go; a new
      name goes to the end. */
  function WithPair(pairs: seq<Pair>, name: Text, value: Text): seq<Pair> {
    if pairs == [] then [Pair(name, value)]
    else if pairs[0].name == name then [Pair(name, value)] + Without(pairs[1..], name)
    else [pairs[0]] + WithPair(pairs[1..], name, value)
  }

  function SetIf(present: bool, pairs: seq<Pair>, name: Text, value: Text): seq<Pair> {
    if present then WithPair(pairs, name, value) else pairs
  }

  /** The pairs a query is printed as: only what differs from the defaults. */
  function Pairs(query: Query): seq<Pair> {
    var phase := SetIf(query.phase.Some?, [], FILTER, OrElse(query.phase, []));
    var category := SetIf(query.category.Some?, phase, CATEGORY, OrElse(query.category, []));
    var venue := SetIf(query.venue.Some?, category, VENUE, OrElse(query.venue, []));
    var prize := SetIf(query.prize.Some?, venue, PRIZE, OrElse(query.prize, []));
    var q := SetIf(query.q != [], prize, Q, query.q);
    var sort := SetIf(query.sort != RECOMMENDED, q, SORT, query.sort);
    SetIf(query.view != GRID, sort, VIEW, query.view)
  }

  function Href(query: Query): seq<Byte> {
    var search := Print(Pairs(query));
    PATH + (if search != [] then [QUESTION] + search else []) + [HASH] + FRAGMENT
  }

  class SearchParams {
    var pairs: seq<Pair>

    constructor ()
      ensures pairs == []
    {
      pairs := [];
    }

    method Set(name: Text, value: Text)
      modifies this
      ensures pairs == WithPair(old(pairs), name, value)
    {
      pairs := WithPair(pairs, name, value);
    }
  }

  /** The fields a link changes: a given one replaces the query's, even by nothing. */
  datatype Changes = Changes(
    phase: Option<Option<Text>>, category: Option<Option<Text>>, venue: Option<Option<Text>>,
    prize: Option<Option<Text>>, q: Option<Text>, sort: Option<Text>, view: Option<Text>)

  function Given<T>(change: Option<T>, value: T): T {
    if change.Some? then change.value else value
  }

  function Changed(query: Query, changes: Changes): Query {
    Query(
      Given(changes.phase, query.phase), Given(changes.category, query.category),
      Given(changes.venue, query.venue), Given(changes.prize, query.prize),
      Given(changes.q, query.q), Given(changes.sort, query.sort), Given(changes.view, query.view))
  }

  method ListingHref(query: Query, changes: Changes) returns (href: seq<Byte>)
    requires IsQuery(Changed(query, changes))
    ensures href == Href(Changed(query, changes))
  {
    var next := Changed(query, changes);
    var params := new SearchParams();
    if next.phase.Some? { params.Set(FILTER, next.phase.value); }
    if next.category.Some? { params.Set(CATEGORY, next.category.value); }
    if next.venue.Some? { params.Set(VENUE, next.venue.value); }
    if next.prize.Some? { params.Set(PRIZE, next.prize.value); }
    if next.q != [] { params.Set(Q, next.q); }
    if next.sort != RECOMMENDED { params.Set(SORT, next.sort); }
    if next.view != GRID { params.Set(VIEW, next.view); }
    var search := Print(params.pairs);
    href := PATH + (if search != [] then [QUESTION] + search else []) + [HASH] + FRAGMENT;
  }

  // ----- The address splits where it was joined -----

  predicate PrintedByte(byte: Byte) {
    Unreserved(byte) || byte == PLUS || byte == PERCENT || byte == EQUALS || byte == AMPERSAND
  }

  lemma PrintedPairIsInert(pair: Pair)
    ensures forall byte | byte in PrintPair(pair) :: PrintedByte(byte)
  {
    EscapedIsInert(Encode(pair.name));
    EscapedIsInert(Encode(pair.value));
  }

  lemma {:induction false} PrintedIsInert(pairs: seq<Pair>)
    ensures forall byte | byte in Print(pairs) :: PrintedByte(byte)
  {
    if pairs == [] {
    } else {
      PrintedPairIsInert(pairs[0]);
      PrintedIsInert(pairs[1..]);
      assert PrintedPairs(pairs)[1..] == PrintedPairs(pairs[1..]);
    }
  }

  lemma AddressSplits(path: seq<Byte>, search: seq<Byte>, fragment: seq<Byte>)
    requires QUESTION !in path && HASH !in path && HASH !in search
    ensures Search(path + (if search != [] then [QUESTION] + search else []) + [HASH] + fragment) == search
  {
    var beforeHash := path + (if search != [] then [QUESTION] + search else []);
    Splitting.SplitFirst(beforeHash, HASH, fragment);
    assert (beforeHash + [HASH] + fragment)[..|beforeHash|] == beforeHash;
    if search == [] {
      assert beforeHash == path;
      Splitting.SplitWhole(path, QUESTION);
    } else {
      assert beforeHash == path + [QUESTION] + search;
      Splitting.SplitFirst(path, QUESTION, search);
      assert beforeHash[|path| + 1..] == search;
    }
  }

  lemma PathIsPlain()
    ensures QUESTION !in PATH && HASH !in PATH
  {
    var literal := "/hackathons";
    assert forall i | 0 <= i < |literal| :: literal[i] in literal && literal[i] != '?' && literal[i] != '#';
  }

  lemma SearchOfHref(query: Query)
    ensures Parse(Search(Href(query))) == SoundPairs(Pairs(query))
  {
    PathIsPlain();
    PrintedIsInert(Pairs(query));
    AddressSplits(PATH, Print(Pairs(query)), FRAGMENT);
    FormRoundTrips(Pairs(query));
  }

  // ----- Every field is read back -----

  lemma {:induction false} FirstWithout(pairs: seq<Pair>, name: Text, other: Text)
    requires other != name
    ensures First(Without(pairs, name), other) == First(pairs, other)
  {
    if pairs == [] {
    } else {
      FirstWithout(pairs[1..], name, other);
      var rest := Without(pairs[1..], name);
      if pairs[0].name == name {
        assert Without(pairs, name) == rest;
      } else {
        assert Without(pairs, name)[1..] == rest;
      }
    }
  }

  lemma {:induction false} FirstAfterSet(pairs: seq<Pair>, name: Text, value: Text, other: Text)
    ensures First(WithPair(pairs, name, value), other) == if other == name then Some(value) else First(pairs, other)
  {
    if pairs == [] {
    } else if pairs[0].name == name {
      assert WithPair(pairs, name, value)[1..] == Without(pairs[1..], name);
      if other != name { FirstWithout(pairs[1..], name, other); }
    } else {
      FirstAfterSet(pairs[1..], name, value, other);
      assert WithPair(pairs, name, value)[1..] == WithPair(pairs[1..], name, value);
    }
  }

  lemma FirstAfterSetIf(present: bool, pairs: seq<Pair>, name: Text, value: Text, other: Text)
    ensures First(SetIf(present, pairs, name, value), other)
         == if present && other == name then Some(value) else First(pairs, other)
  {
    if present { FirstAfterSet(pairs, name, value, other); }
  }

  lemma NamesDiffer()
    ensures FILTER != CATEGORY && FILTER != VENUE && FILTER != PRIZE && FILTER != Q && FILTER != SORT && FILTER != VIEW
    ensures CATEGORY != VENUE && CATEGORY != PRIZE && CATEGORY != Q && CATEGORY != SORT && CATEGORY != VIEW
    ensures VENUE != PRIZE && VENUE != Q && VENUE != SORT && VENUE != VIEW
    ensures PRIZE != Q && PRIZE != SORT && PRIZE != VIEW
    ensures Q != SORT && Q != VIEW && SORT != VIEW
  {
    assert VENUE[0] == 'v' as int && PRIZE[0] == 'p' as int && SORT[0] == 's' as int && VIEW[0] == 'v' as int;
  }

  /** The value a query gives to a name. */
  function Field(query: Query, name: Text): Option<Text> {
    if name == FILTER then query.phase
    else if name == CATEGORY then query.category
    else if name == VENUE then query.venue
    else if name == PRIZE then query.prize
    else if name == Q then (if query.q == [] then None else Some(query.q))
    else if name == SORT then (if query.sort == RECOMMENDED then None else Some(query.sort))
    else if name == VIEW then (if query.view == GRID then None else Some(query.view))
    else None
  }

  lemma PairsHoldFields(query: Query, name: Text)
    ensures First(Pairs(query), name) == Field(query, name)
  {
    var phase := SetIf(query.phase.Some?, [], FILTER, OrElse(query.phase, []));
    var category := SetIf(query.category.Some?, phase, CATEGORY, OrElse(query.category, []));
    var venue := SetIf(query.venue.Some?, category, VENUE, OrElse(query.venue, []));
    var prize := SetIf(query.prize.Some?, venue, PRIZE, OrElse(query.prize, []));
    var q := SetIf(query.q != [], prize, Q, query.q);
    var sort := SetIf(query.sort != RECOMMENDED, q, SORT, query.sort);
    FirstAfterSetIf(query.phase.Some?, [], FILTER, OrElse(query.phase, []), name);
    FirstAfterSetIf(query.category.Some?, phase, CATEGORY, OrElse(query.category, []), name);
    FirstAfterSetIf(query.venue.Some?, category, VENUE, OrElse(query.venue, []), name);
    FirstAfterSetIf(query.prize.Some?, venue, PRIZE, OrElse(query.prize, []), name);
    FirstAfterSetIf(query.q != [], prize, Q, query.q, name);
    FirstAfterSetIf(query.sort != RECOMMENDED, q, SORT, query.sort, name);
    FirstAfterSetIf(query.view != GRID, sort, VIEW, query.view, name);
    NamesDiffer();
  }

  lemma SoundBytes(text: seq<Byte>)
    ensures Sound(text) == text
  {
    PlainWellFormed(text);
    TextRoundTrips(text);
  }

  ghost predicate SoundNames(pairs: seq<Pair>) {
    forall i | 0 <= i < |pairs| :: Sound(pairs[i].name) == pairs[i].name
  }

  lemma {:induction false} WithoutKeepsNames(pairs: seq<Pair>, name: Text)
    requires SoundNames(pairs)
    ensures SoundNames(Without(pairs, name))
  {
    if pairs == [] {
    } else {
      WithoutKeepsNames(pairs[1..], name);
    }
  }

  lemma {:induction false} SetKeepsNames(pairs: seq<Pair>, name: Text, value: Text)
    requires SoundNames(pairs) && Sound(name) == name
    ensures SoundNames(WithPair(pairs, name, value))
  {
    if pairs == [] {
    } else {
      WithoutKeepsNames(pairs[1..], name);
      SetKeepsNames(pairs[1..], name, value);
    }
  }

  lemma SetIfKeepsNames(present: bool, pairs: seq<Pair>, name: seq<Byte>, value: Text)
    requires SoundNames(pairs)
    ensures SoundNames(SetIf(present, pairs, name, value))
  {
    SoundBytes(name);
    SetKeepsNames(pairs, name, value);
  }

  lemma PairsHaveSoundNames(query: Query)
    ensures SoundNames(Pairs(query))
  {
    var phase := SetIf(query.phase.Some?, [], FILTER, OrElse(query.phase, []));
    var category := SetIf(query.category.Some?, phase, CATEGORY, OrElse(query.category, []));
    var venue := SetIf(query.venue.Some?, category, VENUE, OrElse(query.venue, []));
    var prize := SetIf(query.prize.Some?, venue, PRIZE, OrElse(query.prize, []));
    var q := SetIf(query.q != [], prize, Q, query.q);
    var sort := SetIf(query.sort != RECOMMENDED, q, SORT, query.sort);
    SetIfKeepsNames(query.phase.Some?, [], FILTER, OrElse(query.phase, []));
    SetIfKeepsNames(query.category.Some?, phase, CATEGORY, OrElse(query.category, []));
    SetIfKeepsNames(query.venue.Some?, category, VENUE, OrElse(query.venue, []));
    SetIfKeepsNames(query.prize.Some?, venue, PRIZE, OrElse(query.prize, []));
    SetIfKeepsNames(query.q != [], prize, Q, query.q);
    SetIfKeepsNames(query.sort != RECOMMENDED, q, SORT, query.sort);
    SetIfKeepsNames(query.view != GRID, sort, VIEW, query.view);
  }

  lemma {:induction false} FirstOfSound(pairs: seq<Pair>, name: Text)
    requires SoundNames(pairs)
    ensures First(SoundPairs(pairs), name)
         == if First(pairs, name).Some? then Some(Sound(First(pairs, name).value)) else None
  {
    if pairs == [] {
    } else {
      FirstOfSound(pairs[1..], name);
      assert SoundPairs(pairs)[1..] == SoundPairs(pairs[1..]);
    }
  }

  lemma FieldReadBack(query: Query, name: Text)
    ensures First(SoundPairs(Pairs(query)), name)
         == if Field(query, name).Some? then Some(Sound(Field(query, name).value)) else None
  {
    PairsHaveSoundNames(query);
    FirstOfSound(Pairs(query), name);
    PairsHoldFields(query, name);
  }

  lemma KeyReadBack(value: Option<Text>, keys: seq<seq<Byte>>)
    requires value.Some? ==> value.value in keys
    ensures OneOf(if value.Some? then Some(Sound(value.value)) else None, keys) == value
  {
    if value.Some? {
      var k :| 0 <= k < |keys| && keys[k] == value.value;
      SoundBytes(keys[k]);
    }
  }

  lemma FiltersReadBack(query: Query)
    requires IsQuery(query)
    ensures var pairs := SoundPairs(Pairs(query));
            && OneOf(First(pairs, FILTER), PHASES) == query.phase
            && OneOf(First(pairs, CATEGORY), CATEGORIES) == query.category
            && OneOf(First(pairs, VENUE), VENUES) == query.venue
            && OneOf(First(pairs, PRIZE), PRIZES) == query.prize
  {
    NamesDiffer();
    FieldReadBack(query, FILTER);
    FieldReadBack(query, CATEGORY);
    FieldReadBack(query, VENUE);
    FieldReadBack(query, PRIZE);
    KeyReadBack(query.phase, PHASES);
    KeyReadBack(query.category, CATEGORIES);
    KeyReadBack(query.venue, VENUES);
    KeyReadBack(query.prize, PRIZES);
  }

  lemma OptionsReadBack(query: Query)
    requires IsQuery(query)
    ensures var pairs := SoundPairs(Pairs(query));
            && OrElse(First(pairs, Q), []) == Sound(query.q)
            && OrElse(OneOf(First(pairs, SORT), SORTS), RECOMMENDED) == query.sort
            && (if First(pairs, VIEW) == Some(LIST) then LIST else GRID) == query.view
  {
    NamesDiffer();
    FieldReadBack(query, Q);
    FieldReadBack(query, SORT);
    FieldReadBack(query, VIEW);
    KeyReadBack(Some(query.sort), SORTS);
    SoundBytes(LIST);
    SoundBytes([]);
  }

  /** Parsing a printed address gives back every field; the search text comes back with its
      unpaired surrogates replaced, then trimmed, then cut. */
  lemma HrefReadBack(query: Query)
    requires IsQuery(query)
    ensures ParseAddress(Href(query)) == query.(q := Cut(Trim(Sound(query.q))))
  {
    SearchOfHref(query);
    FiltersReadBack(query);
    OptionsReadBack(query);
  }

  // ----- When the query itself comes back -----

  lemma {:induction false} TrimStartTrims(text: Text)
    ensures |TrimStart(text)| <= |text|
    ensures TrimStart(text) != [] ==> !IsSpace(TrimStart(text)[0])
    ensures |TrimStart(text)| == |text| ==> TrimStart(text) == text
  {
    if text == [] || !IsSpace(text[0]) {
    } else {
      TrimStartTrims(text[1..]);
    }
  }

  lemma {:induction false} TrimEndTrims(text: Text)
    ensures TrimEnd(text) <= text
    ensures TrimEnd(text) != [] ==> !IsSpace(TrimEnd(text)[|TrimEnd(text)| - 1])
  {
    if text == [] || !IsSpace(text[|text| - 1]) {
    } else {
      TrimEndTrims(text[..|text| - 1]);
    }
  }

  lemma TrimExactly(text: Text)
    ensures |Trim(text)| <= |text| && Trimmed(Trim(text))
    ensures Trim(text) == text <==> Trimmed(text)
    ensures |Trim(text)| == |text| ==> Trim(text) == text
  {
    TrimStartTrims(text);
    TrimEndTrims(TrimStart(text));
  }

  ghost predicate AllSpace(text: Text) {
    forall i | 0 <= i < |text| :: IsSpace(text[i])
  }

  lemma {:induction false} TrimStartTakesSpace(text: Text)
    ensures var n := |text| - |TrimStart(text)|;
            n >= 0 && AllSpace(text[..n]) && TrimStart(text) == text[n..]
  {
    if text == [] || !IsSpace(text[0]) {
    } else {
      TrimStartTakesSpace(text[1..]);
      var n := |text| - |TrimStart(text)|;
      assert text[..n] == [text[0]] + text[1..][..n - 1] && text[n..] == text[1..][n - 1..];
    }
  }

  lemma {:induction false} TrimEndTakesSpace(text: Text)
    ensures var n := |TrimEnd(text)|;
            n <= |text| && AllSpace(text[n..]) && TrimEnd(text) == text[..n]
  {
    if text == [] || !IsSpace(text[|text| - 1]) {
    } else {
      TrimEndTakesSpace(text[..|text| - 1]);
      var n := |TrimEnd(text)|;
      assert text[n..] == text[..|text| - 1][n..] + [text[|text| - 1]];
    }
  }

  /** Trimming takes white space off both ends and nothing else. */
  lemma TrimTakesSpace(text: Text) returns (front: Text, back: Text)
    ensures text == front + Trim(text) + back && AllSpace(front) && AllSpace(back) && Trimmed(Trim(text))
  {
    TrimExactly(text);
    TrimStartTakesSpace(text);
    TrimEndTakesSpace(TrimStart(text));
    front := text[..|text| - |TrimStart(text)|];
    back := TrimStart(text)[|Trim(text)|..];
  }

  /** The white space of ECMA-262: 25 code units. */
  lemma SpacesExactly(unit: CodeUnit)
    ensures IsSpace(unit)
        <==> unit in {0x9, 0xA, 0xB, 0xC, 0xD, 0x20, 0xA0, 0x1680, 0x2000, 0x2001, 0x2002, 0x2003, 0x2004, 0x2005,
                      0x2006, 0x2007, 0x2008, 0x2009, 0x200A, 0x2028, 0x2029, 0x202F, 0x205F, 0x3000, 0xFEFF}
  {
  }

  /** A query survives printing and parsing exactly when its search text is trimmed, at most
      eighty code units long and well-formed UTF-16. */
  lemma HrefRoundTripsExactly(query: Query)
    requires IsQuery(query)
    ensures ParseAddress(Href(query)) == query
        <==> Trimmed(query.q) && |query.q| <= 80 && WellFormed(query.q)
  {
    HrefReadBack(query);
    TextRoundTrips(query.q);
    TrimExactly(Sound(query.q));
    TrimExactly(query.q);
  }

  /** So a link that changes some fields of such a query leads to exactly those changes: each
      given field arrives as given, every other as it was. */
  lemma LinkMakesItsChanges(query: Query, changes: Changes)
    requires IsQuery(query) && IsQuery(Changed(query, changes))
    requires var q := Changed(query, changes).q; Trimmed(q) && |q| <= MAX_QUERY_LENGTH && WellFormed(q)
    ensures var arrived := ParseAddress(Href(Changed(query, changes)));
            && arrived.phase == (if changes.phase.Some? then changes.phase.value else query.phase)
            && arrived.category == (if changes.category.Some? then changes.category.value else query.category)
            && arrived.venue == (if changes.venue.Some? then changes.venue.value else query.venue)
            && arrived.prize == (if changes.prize.Some? then changes.prize.value else query.prize)
            && arrived.q == (if changes.q.Some? then changes.q.value else query.q)
            && arrived.sort == (if changes.sort.Some? then changes.sort.value else query.sort)
            && arrived.view == if changes.view.Some? then changes.view.value else query.view
  {
    HrefRoundTripsExactly(Changed(query, changes));
  }

  /** On such queries the printed address tells them apart. */
  lemma HrefInjective(x: Query, y: Query)
    requires IsQuery(x) && Trimmed(x.q) && |x.q| <= MAX_QUERY_LENGTH && WellFormed(x.q)
    requires IsQuery(y) && Trimmed(y.q) && |y.q| <= MAX_QUERY_LENGTH && WellFormed(y.q)
    requires Href(x) == Href(y)
    ensures x == y
  {
    HrefRoundTripsExactly(x);
    HrefRoundTripsExactly(y);
  }

  /** A parsed query need not survive: cutting a long search text can leave a space at its end. */
  lemma CutCanLeaveSpace(word: Text)
    requires |word| == MAX_QUERY_LENGTH - 1 && Trimmed(word)
    ensures var typed := word + [0x20, 0x62];
            var query := ParseListingQuery([Pair(Q, typed)]);
            query.q == word + [0x20] && ParseAddress(Href(query)) != query
  {
    var typed := word + [0x20, 0x62];
    assert typed[0] == word[0];
    TrimExactly(typed);
    assert typed[..MAX_QUERY_LENGTH] == word + [0x20];
    var query := ParseListingQuery([Pair(Q, typed)]);
    assert query.q == word + [0x20];
    HrefRoundTripsExactly(query);
  }

  // ----- The link spelled out -----

  lemma {:induction false} PlainEscapes(text: seq<Byte>)
    requires forall i | 0 <= i < |text| :: text[i] < 0x80 && Unreserved(text[i])
    ensures Scalars(text) == text && EncodeScalars(text) == text && Escape(text) == text
  {
    if text == [] {
    } else {
      PlainEscapes(text[1..]);
    }
  }

  type Printed = bytes: seq<Byte> | bytes != [] witness [0]

  /** One parameter of the link: its name as it is, an equals sign, the value escaped. */
  ghost function Parameter(name: string, value: Text): Printed
    requires forall c | c in name :: c as int < 0x80
  {
    Ascii(name) + ['=' as int] + Escape(Encode(value))
  }

  lemma ParameterIsPrinted(name: string, value: Text)
    requires forall c | c in name :: 'a' <= c <= 'z'
    ensures PrintPair(Pair(Ascii(name), value)) == Parameter(name, value)
  {
    assert forall i | 0 <= i < |name| :: name[i] in name;
    PlainEscapes(Ascii(name));
  }

  /** The parameters of a query's link, in order; a default has none. */
  ghost function Parameters(query: Query): seq<Printed> {
    (if query.phase.Some? then [Parameter("filter", query.phase.value)] else [])
    + (if query.category.Some? then [Parameter("category", query.category.value)] else [])
    + (if query.venue.Some? then [Parameter("venue", query.venue.value)] else [])
    + (if query.prize.Some? then [Parameter("prize", query.prize.value)] else [])
    + (if query.q != [] then [Parameter("q", query.q)] else [])
    + (if query.sort != Ascii("recommended") then [Parameter("sort", query.sort)] else [])
    + (if query.view != Ascii("grid") then [Parameter("view", query.view)] else [])
  }

  ghost predicate NamedIn(pairs: seq<Pair>, names: set<Text>) {
    forall i | 0 <= i < |pairs| :: pairs[i].name in names
  }

  lemma {:induction false} NewNameGoesLast(pairs: seq<Pair>, name: Text, value: Text)
    requires forall i | 0 <= i < |pairs| :: pairs[i].name != name
    ensures WithPair(pairs, name, value) == pairs + [Pair(name, value)]
  {
    if pairs == [] {
    } else {
      assert pairs[0].name != name;
      NewNameGoesLast(pairs[1..], name, value);
    }
  }

  lemma {:induction false} PrintedConcat(one: seq<Pair>, two: seq<Pair>)
    ensures PrintedPairs(one + two) == PrintedPairs(one) + PrintedPairs(two)
  {
    if one == [] {
      assert one + two == two;
    } else {
      assert (one + two)[1..] == one[1..] + two;
      PrintedConcat(one[1..], two);
    }
  }

  /** Setting a new name adds its parameter, if it is set. */
  lemma SetIfPrints(present: bool, pairs: seq<Pair>, name: string, value: Text, names: set<Text>)
    requires (forall c | c in name :: 'a' <= c <= 'z') && NamedIn(pairs, names) && Ascii(name) !in names
    ensures PrintedPairs(SetIf(present, pairs, Ascii(name), value))
         == PrintedPairs(pairs) + (if present then [Parameter(name, value)] else [])
    ensures NamedIn(SetIf(present, pairs, Ascii(name), value), names + {Ascii(name)})
  {
    if present {
      NewNameGoesLast(pairs, Ascii(name), value);
      ParameterIsPrinted(name, value);
      PrintedConcat(pairs, [Pair(Ascii(name), value)]);
      assert PrintedPairs([Pair(Ascii(name), value)]) == [Parameter(name, value)];
    }
  }

  lemma JoinedNonempty(parts: seq<Printed>)
    ensures Splitting.Join(parts, AMPERSAND) == [] <==> parts == []
  {
  }

  lemma FragmentSpelled()
    ensures [HASH] + FRAGMENT == Ascii("#directory")
  {
  }

  /** Every link, written out: the path, the parameters with ampersands between, if there are any,
      and the fragment. */
  lemma LinkIsSpelled(query: Query)
    ensures var parameters := Parameters(query);
            Href(query)
            == Ascii("/hackathons")
               + (if parameters == [] then [] else ['?' as int] + Splitting.Join<Byte>(parameters, '&' as int))
               + Ascii("#directory")
  {
    ParametersArePrinted(query);
    JoinedNonempty(Parameters(query));
    FragmentSpelled();
  }

  lemma ParametersArePrinted(query: Query)
    ensures PrintedPairs(Pairs(query)) == Parameters(query)
  {
    FiltersArePrinted(query);
    NamesDiffer();
    var prize, four := FilterPairs(query), {FILTER, CATEGORY, VENUE, PRIZE};
    var q := SetIf(query.q != [], prize, Q, query.q);
    var sort := SetIf(query.sort != RECOMMENDED, q, SORT, query.sort);
    SetIfPrints(query.q != [], prize, "q", query.q, four);
    SetIfPrints(query.sort != RECOMMENDED, q, "sort", query.sort, four + {Q});
    SetIfPrints(query.view != GRID, sort, "view", query.view, four + {Q} + {SORT});
  }

  function FirstPairs(query: Query): seq<Pair> {
    var phase := SetIf(query.phase.Some?, [], FILTER, OrElse(query.phase, []));
    SetIf(query.category.Some?, phase, CATEGORY, OrElse(query.category, []))
  }

  /** The pairs of the four filters, which come first. */
  function FilterPairs(query: Query): seq<Pair> {
    var venue := SetIf(query.venue.Some?, FirstPairs(query), VENUE, OrElse(query.venue, []));
    SetIf(query.prize.Some?, venue, PRIZE, OrElse(query.prize, []))
  }

  lemma FirstArePrinted(query: Query)
    ensures NamedIn(FirstPairs(query), {FILTER, CATEGORY})
    ensures PrintedPairs(FirstPairs(query))
         == (if query.phase.Some? then [Parameter("filter", query.phase.value)] else [])
            + (if query.category.Some? then [Parameter("category", query.category.value)] else [])
  {
    NamesDiffer();
    var phase := SetIf(query.phase.Some?, [], FILTER, OrElse(query.phase, []));
    SetIfPrints(query.phase.Some?, [], "filter", OrElse(query.phase, []), {});
    SetIfPrints(query.category.Some?, phase, "category", OrElse(query.category, []), {FILTER});
    assert {FILTER} + {CATEGORY} == {FILTER, CATEGORY};
  }

  lemma FiltersArePrinted(query: Query)
    ensures NamedIn(FilterPairs(query), {FILTER, CATEGORY, VENUE, PRIZE})
    ensures PrintedPairs(FilterPairs(query))
         == (if query.phase.Some? then [Parameter("filter", query.phase.value)] else [])
            + (if query.category.Some? then [Parameter("category", query.category.value)] else [])
            + (if query.venue.Some? then [Parameter("venue", query.venue.value)] else [])
            + (if query.prize.Some? then [Parameter("prize", query.prize.value)] else [])
  {
    NamesDiffer();
    FirstArePrinted(query);
    var two := {FILTER, CATEGORY};
    var venue := SetIf(query.venue.Some?, FirstPairs(query), VENUE, OrElse(query.venue, []));
    SetIfPrints(query.venue.Some?, FirstPairs(query), "venue", OrElse(query.venue, []), two);
    SetIfPrints(query.prize.Some?, venue, "prize", OrElse(query.prize, []), two + {VENUE});
    assert two + {VENUE} + {PRIZE} == {FILTER, CATEGORY, VENUE, PRIZE};
  }

  // ----- What a query is parsed as -----

  /** Of the values given for a name the first one counts. */
  lemma {:induction false} FirstExactly(pairs: seq<Pair>, name: Text, value: Text)
    ensures First(pairs, name) == Some(value)
        <==> exists k | 0 <= k < |pairs| ::
               pairs[k] == Pair(name, value) && forall j | 0 <= j < k :: pairs[j].name != name
  {
    if pairs == [] {
    } else {
      FirstExactly(pairs[1..], name, value);
      assert forall k | 0 < k < |pairs| :: pairs[k] == pairs[1..][k - 1];
      if First(pairs, name) == Some(value) && pairs[0].name != name {
        var k :| 0 <= k < |pairs[1..]| && pairs[1..][k] == Pair(name, value)
                 && forall j | 0 <= j < k :: pairs[1..][j].name != name;
        assert pairs[k + 1] == Pair(name, value);
      }
    }
  }

  /** Any parameters at all are read so: a filter counts if it is one of its keys, and so does the
      order, which else is the recommended one; the view is a list only when asked for; the search
      text is trimmed and cut, and empty when there is none. */
  lemma ParsesExactly(pairs: seq<Pair>, value: Text)
    ensures var query := ParseListingQuery(pairs);
            && (query.phase == Some(value) <==> First(pairs, Ascii("filter")) == Some(value) && value in PHASES)
            && (query.category == Some(value) <==> First(pairs, Ascii("category")) == Some(value) && value in CATEGORIES)
            && (query.venue == Some(value) <==> First(pairs, Ascii("venue")) == Some(value) && value in VENUES)
            && (query.prize == Some(value) <==> First(pairs, Ascii("prize")) == Some(value) && value in PRIZES)
            && (First(pairs, Ascii("sort")) == Some(value) && value in SORTS ==> query.sort == value)
            && ((First(pairs, Ascii("sort")).None? || First(pairs, Ascii("sort")).value !in SORTS) ==>
                  query.sort == Ascii("recommended"))
            && (query.view == Ascii("list") <==> First(pairs, Ascii("view")) == Some(Ascii("list")))
            && (First(pairs, Ascii("q")) == None ==> query.q == [])
            && (First(pairs, Ascii("q")) == Some(value) ==>
                  query.q == if |Trim(value)| <= 80 then Trim(value) else Trim(value)[..80])
  {
    assert GRID[0] != LIST[0];
  }
}
