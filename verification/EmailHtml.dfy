/** Escaping for email bodies, and the template tag that escapes every interpolated value
    except fragments that are already HTML. */
module EmailHtml {

  // ----- Escaping -----

  /** value.replace(/c/g, entity) */
  function ReplaceAll(value: string, c: char, entity: string): string {
    if value == "" then ""
    else (if value[0] == c then entity else [value[0]]) + ReplaceAll(value[1..], c, entity)
  }

  function EscapeHtml(value: string): string {
    var amp := ReplaceAll(value, '&', "&amp;");
    var lt := ReplaceAll(amp, '<', "&lt;");
    var gt := ReplaceAll(lt, '>', "&gt;");
    var quot := ReplaceAll(gt, '"', "&quot;");
    ReplaceAll(quot, '\'', "&#39;")
  }

  /** What one character becomes. */
  function Entity(c: char): string {
    match c
    case '&' => "&amp;"
    case '<' => "&lt;"
    case '>' => "&gt;"
    case '"' => "&quot;"
    case '\'' => "&#39;"
    case _ => [c]
  }

  function EscapeEach(value: string): string {
    if value == "" then "" else Entity(value[0]) + EscapeEach(value[1..])
  }

  lemma {:induction false} ReplaceConcat(x: string, y: string, c: char, entity: string)
    ensures ReplaceAll(x + y, c, entity) == ReplaceAll(x, c, entity) + ReplaceAll(y, c, entity)
  {
    if x == "" {
      assert x + y == y;
    } else {
      assert (x + y)[1..] == x[1..] + y;
      ReplaceConcat(x[1..], y, c, entity);
    }
  }

  lemma {:induction false} Untouched(x: string, c: char, entity: string)
    requires c !in x
    ensures ReplaceAll(x, c, entity) == x
  {
    if x == "" {
    } else {
      Untouched(x[1..], c, entity);
    }
  }

  lemma ReplaceOne(d: char, c: char, entity: string)
    ensures ReplaceAll([d], c, entity) == if d == c then entity else [d]
  {
    assert ReplaceAll([d], c, entity) == (if d == c then entity else [d]) + "";
  }

  predicate Markup(c: char) {
    c == '<' || c == '>' || c == '"' || c == '\''
  }

  lemma UnmarkedStays(x: string)
    requires forall d | d in x :: !Markup(d)
    ensures ReplaceAll(x, '<', "&lt;") == x && ReplaceAll(x, '>', "&gt;") == x
    ensures ReplaceAll(x, '"', "&quot;") == x && ReplaceAll(x, '\'', "&#39;") == x
  {
    Untouched(x, '<', "&lt;");
    Untouched(x, '>', "&gt;");
    Untouched(x, '"', "&quot;");
    Untouched(x, '\'', "&#39;");
  }

  /** No replacement touches the text an earlier one put in. */
  lemma EscapeOne(c: char)
    ensures EscapeHtml([c]) == Entity(c)
  {
    ReplaceOne(c, '&', "&amp;");
    if c == '&' || Markup(c) {
      UnmarkedStays(Entity(c));
    }
    if c != '&' {
      ReplaceOne(c, '<', "&lt;");
      ReplaceOne(c, '>', "&gt;");
      ReplaceOne(c, '"', "&quot;");
      ReplaceOne(c, '\'', "&#39;");
    }
  }

  lemma EscapeConcat(x: string, y: string)
    ensures EscapeHtml(x + y) == EscapeHtml(x) + EscapeHtml(y)
  {
    ReplaceConcat(x, y, '&', "&amp;");
    var x1, y1 := ReplaceAll(x, '&', "&amp;"), ReplaceAll(y, '&', "&amp;");
    ReplaceConcat(x1, y1, '<', "&lt;");
    var x2, y2 := ReplaceAll(x1, '<', "&lt;"), ReplaceAll(y1, '<', "&lt;");
    ReplaceConcat(x2, y2, '>', "&gt;");
    var x3, y3 := ReplaceAll(x2, '>', "&gt;"), ReplaceAll(y2, '>', "&gt;");
    ReplaceConcat(x3, y3, '"', "&quot;");
    var x4, y4 := ReplaceAll(x3, '"', "&quot;"), ReplaceAll(y3, '"', "&quot;");
    ReplaceConcat(x4, y4, '\'', "&#39;");
  }

  /** The five replacements in turn are one replacement of every character at once. */
  lemma {:induction false} EscapeIsSimultaneous(value: string)
    ensures EscapeHtml(value) == EscapeEach(value)
  {
    if value == "" {
    } else {
      assert value == [value[0]] + value[1..];
      EscapeConcat([value[0]], value[1..]);
      EscapeOne(value[0]);
      EscapeIsSimultaneous(value[1..]);
    }
  }

  // ----- Reading it back -----

  /** The five entities decoded, everything else kept. */
  function Unescape(text: string): string {
    if text == "" then ""
    else if "&amp;" <= text then "&" + Unescape(text[5..])
    else if "&lt;" <= text then "<" + Unescape(text[4..])
    else if "&gt;" <= text then ">" + Unescape(text[4..])
    else if "&quot;" <= text then "\"" + Unescape(text[6..])
    else if "&#39;" <= text then "'" + Unescape(text[5..])
    else [text[0]] + Unescape(text[1..])
  }

  predicate StartsEntity(text: string) {
    "&amp;" <= text || "&lt;" <= text || "&gt;" <= text || "&quot;" <= text || "&#39;" <= text
  }

  /** No markup character, and every ampersand starts one of the five entities. */
  ghost predicate Inert(text: string) {
    && (forall i | 0 <= i < |text| :: !Markup(text[i]))
    && (forall i | 0 <= i < |text| && text[i] == '&' :: StartsEntity(text[i..]))
  }

  lemma UnescapeAmpersand(rest: string)
    ensures Unescape("&amp;" + rest) == "&" + Unescape(rest)
  {
    var text := "&amp;" + rest;
    assert text[5..] == rest;
  }

  lemma UnescapeLess(rest: string)
    ensures Unescape("&lt;" + rest) == "<" + Unescape(rest)
  {
    var text := "&lt;" + rest;
    assert text[1] == 'l' && text[4..] == rest;
  }

  lemma UnescapeGreater(rest: string)
    ensures Unescape("&gt;" + rest) == ">" + Unescape(rest)
  {
    var text := "&gt;" + rest;
    assert text[1] == 'g' && text[4..] == rest;
  }

  lemma UnescapeQuote(rest: string)
    ensures Unescape("&quot;" + rest) == "\"" + Unescape(rest)
  {
    var text := "&quot;" + rest;
    assert text[1] == 'q' && text[6..] == rest;
  }

  lemma UnescapeApostrophe(rest: string)
    ensures Unescape("&#39;" + rest) == "'" + Unescape(rest)
  {
    var text := "&#39;" + rest;
    assert text[1] == '#' && text[5..] == rest;
  }

  lemma UnescapeEntity(c: char, rest: string)
    ensures Unescape(Entity(c) + rest) == [c] + Unescape(rest)
  {
    match c {
      case '&' => UnescapeAmpersand(rest);
      case '<' => UnescapeLess(rest);
      case '>' => UnescapeGreater(rest);
      case '"' => UnescapeQuote(rest);
      case '\'' => UnescapeApostrophe(rest);
      case _ => assert ([c] + rest)[0] == c && ([c] + rest)[1..] == rest;
    }
  }

  /** Decoding what was escaped gives the original text back. */
  lemma {:induction false} EscapeRoundTrips(value: string)
    ensures Unescape(EscapeHtml(value)) == value
  {
    EscapeIsSimultaneous(value);
    if value == "" {
    } else {
      EscapeRoundTrips(value[1..]);
      EscapeIsSimultaneous(value[1..]);
      UnescapeEntity(value[0], EscapeEach(value[1..]));
    }
  }

  lemma {:induction false} EscapedIsInert(value: string)
    ensures Inert(EscapeEach(value))
  {
    if value == "" {
    } else {
      EscapedIsInert(value[1..]);
      var head, rest := Entity(value[0]), EscapeEach(value[1..]);
      var text := head + rest;
      forall i | 0 <= i < |text|
        ensures !Markup(text[i]) && (text[i] == '&' ==> StartsEntity(text[i..]))
      {
        if i < |head| {
          if text[i] == '&' {
            assert i == 0 && head <= text && text[0..] == text;
          }
        } else {
          assert text[i] == rest[i - |head|] && text[i..] == rest[i - |head|..];
        }
      }
    }
  }

  lemma InertTail(text: string, n: nat)
    requires Inert(text) && n <= |text|
    ensures Inert(text[n..])
  {
    forall i | 0 <= i < |text[n..]| ensures text[n..][i] == text[n + i] && text[n..][i..] == text[n + i..] {
    }
  }

  /** What an inert text starts with is one character's entity. */
  lemma InertHead(text: string) returns (c: char, n: nat)
    requires Inert(text) && text != ""
    ensures 0 < n <= |text| && Entity(c) == text[..n]
    ensures Unescape(text) == [c] + Unescape(text[n..])
  {
    assert text[0..] == text;
    if "&amp;" <= text { c, n := '&', 5; }
    else if "&lt;" <= text { c, n := '<', 4; }
    else if "&gt;" <= text { c, n := '>', 4; }
    else if "&quot;" <= text { c, n := '"', 6; }
    else if "&#39;" <= text { c, n := '\'', 5; }
    else { c, n := text[0], 1; }
  }

  lemma {:induction false} InertIsEscaped(text: string)
    requires Inert(text)
    ensures EscapeEach(Unescape(text)) == text
    decreases |text|
  {
    if text == "" {
    } else {
      var c, n := InertHead(text);
      InertTail(text, n);
      InertIsEscaped(text[n..]);
      EscapeFirst(c, Unescape(text[n..]));
      assert text == text[..n] + text[n..];
    }
  }

  lemma EscapeFirst(c: char, rest: string)
    ensures EscapeEach([c] + rest) == Entity(c) + EscapeEach(rest)
  {
    assert ([c] + rest)[1..] == rest;
  }

  /** The texts escaping produces are exactly the inert ones. */
  lemma EscapedExactlyInert(text: string)
    ensures Inert(text) <==> exists value :: EscapeHtml(value) == text
  {
    if Inert(text) {
      InertIsEscaped(text);
      EscapeIsSimultaneous(Unescape(text));
      assert EscapeHtml(Unescape(text)) == text;
    }
    if value :| EscapeHtml(value) == text {
      EscapeIsSimultaneous(value);
      EscapedIsInert(value);
    }
  }

  // ----- The template tag -----

  datatype SafeHtml = SafeHtml(value: string)

  /** An interpolated value: HTML already, nothing (null, undefined, false), or text. */
  datatype Value = Fragment(html: SafeHtml) | Nothing | Text(text: string)

  function Interpolate(value: Value): string {
    match value
    case Fragment(html) => html.value
    case Nothing => ""
    case Text(text) => EscapeHtml(text)
  }

  function Mapped<T>(f: T -> string, xs: seq<T>): seq<string> {
    seq(|xs|, i requires 0 <= i < |xs| => f(xs[i]))
  }

  /** The chunks so far, each followed by what is written for its value when there is one. */
  function Reduced(strings: seq<string>, written: seq<string>, n: nat): string
    requires n <= |strings|
  {
    if n == 0 then "" else Reduced(strings, written, n - 1) + Piece(strings, written, n - 1)
  }

  /** One chunk and what is written after it. */
  function Piece(strings: seq<string>, written: seq<string>, n: nat): string
    requires n < |strings|
  {
    strings[n] + if n < |written| then written[n] else ""
  }

  function Html(strings: seq<string>, values: seq<Value>): SafeHtml {
    SafeHtml(Reduced(strings, Mapped(Interpolate, values), |strings|))
  }

  /** The markup characters of a text, in order. */
  ghost function MarkupOf(text: string): string {
    if text == "" then ""
    else if Markup(text[0]) then [text[0]] + MarkupOf(text[1..])
    else MarkupOf(text[1..])
  }

  lemma {:induction false} MarkupConcat(x: string, y: string)
    ensures MarkupOf(x + y) == MarkupOf(x) + MarkupOf(y)
  {
    if x == "" {
      assert x + y == y;
    } else {
      assert (x + y)[0] == x[0] && (x + y)[1..] == x[1..] + y;
      MarkupConcat(x[1..], y);
    }
  }

  lemma {:induction false} InertHasNoMarkup(text: string)
    requires forall i | 0 <= i < |text| :: !Markup(text[i])
    ensures MarkupOf(text) == ""
  {
    if text == "" {
    } else {
      InertHasNoMarkup(text[1..]);
    }
  }

  /** The markup of an interpolated value, if it is a fragment of HTML. */
  ghost function FragmentMarkup(value: Value): string {
    if value.Fragment? then MarkupOf(value.html.value) else ""
  }

  /** The markup written by the template's author: its chunks and its HTML fragments. */
  ghost function AuthoredMarkup(strings: seq<string>, values: seq<Value>): string {
    Reduced(Mapped(MarkupOf, strings), Mapped(FragmentMarkup, values), |strings|)
  }

  /** Of what is interpolated only a fragment of HTML adds markup. */
  lemma InterpolatedMarkup(value: Value)
    ensures MarkupOf(Interpolate(value)) == FragmentMarkup(value)
  {
    if value.Text? {
      EscapeIsSimultaneous(value.text);
      EscapedIsInert(value.text);
      InertHasNoMarkup(Interpolate(value));
    }
  }

  lemma PieceMaps(f: string -> string, strings: seq<string>, written: seq<string>, n: nat)
    requires n < |strings| && f("") == "" && forall x, y :: f(x + y) == f(x) + f(y)
    ensures f(Piece(strings, written, n)) == Piece(Mapped(f, strings), Mapped(f, written), n)
  {
    if n < |written| {
      assert f(strings[n] + written[n]) == f(strings[n]) + f(written[n]);
    } else {
      assert f(strings[n] + "") == f(strings[n]) + f("");
    }
  }

  /** What distributes over concatenation distributes over the template. */
  lemma {:induction false} ReducedMaps(f: string -> string, strings: seq<string>, written: seq<string>, n: nat)
    requires n <= |strings| && f("") == "" && forall x, y :: f(x + y) == f(x) + f(y)
    ensures f(Reduced(strings, written, n)) == Reduced(Mapped(f, strings), Mapped(f, written), n)
  {
    if n == 0 {
    } else {
      ReducedMaps(f, strings, written, n - 1);
      PieceMaps(f, strings, written, n - 1);
    }
  }

  /** Interpolated text adds no markup: the markup of an email body is what its author wrote. */
  lemma MarkupIsAuthored(strings: seq<string>, values: seq<Value>)
    ensures MarkupOf(Html(strings, values).value) == AuthoredMarkup(strings, values)
  {
    forall x, y ensures MarkupOf(x + y) == MarkupOf(x) + MarkupOf(y) {
      MarkupConcat(x, y);
    }
    ReducedMaps(MarkupOf, strings, Mapped(Interpolate, values), |strings|);
    forall i | 0 <= i < |values| ensures MarkupOf(Interpolate(values[i])) == FragmentMarkup(values[i]) {
      InterpolatedMarkup(values[i]);
    }
    assert Mapped(MarkupOf, Mapped(Interpolate, values)) == Mapped(FragmentMarkup, values);
  }

  /** The same values, except for what the texts say. */
  ghost predicate SameButText(one: seq<Value>, two: seq<Value>) {
    && |one| == |two|
    && forall i | 0 <= i < |one| :: one[i] == two[i] || (one[i].Text? && two[i].Text?)
  }

  lemma SameMapped(one: seq<Value>, two: seq<Value>)
    requires |one| == |two| && forall i | 0 <= i < |one| :: FragmentMarkup(one[i]) == FragmentMarkup(two[i])
    ensures Mapped(FragmentMarkup, one) == Mapped(FragmentMarkup, two)
  {
  }

  /** Whatever text is interpolated, the same markup comes out. */
  lemma TextCannotChangeMarkup(strings: seq<string>, one: seq<Value>, two: seq<Value>)
    requires SameButText(one, two)
    ensures MarkupOf(Html(strings, one).value) == MarkupOf(Html(strings, two).value)
  {
    MarkupIsAuthored(strings, one);
    MarkupIsAuthored(strings, two);
    forall i | 0 <= i < |one| ensures FragmentMarkup(one[i]) == FragmentMarkup(two[i]) {
      assert one[i] == two[i] || (one[i].Text? && two[i].Text?);
    }
    SameMapped(one, two);
  }

  /** What the template says, written out: its first chunk, then for each value and the chunk after
      it a fragment as it is, nothing for nothing, or a text with each character escaped. */
  lemma HtmlSaysExactly(strings: seq<string>, values: seq<Value>, value: Value, chunk: string)
    requires |strings| == |values| + 1
    ensures Html([chunk], []).value == chunk
    ensures Html(strings + [chunk], values + [value]).value
         == Html(strings, values).value
            + (match value
               case Fragment(html) => html.value
               case Nothing => ""
               case Text(text) => EscapeEach(text))
            + chunk
  {
    var n := |strings|;
    var written := Mapped(Interpolate, values + [value]);
    if value.Text? { EscapeIsSimultaneous(value.text); }
    ReducedTakes(strings + [chunk], strings, written, Mapped(Interpolate, values), |values|);
    assert Reduced(strings + [chunk], written, n + 1)
           == Reduced(strings + [chunk], written, n) + Piece(strings + [chunk], written, n);
    assert Reduced(strings + [chunk], written, n)
           == Reduced(strings + [chunk], written, n - 1) + Piece(strings + [chunk], written, n - 1);
    assert Reduced([chunk], [], 1) == Reduced([chunk], [], 0) + Piece([chunk], [], 0);
    assert Piece(strings + [chunk], written, n) == chunk + "";
    assert Piece(strings + [chunk], written, n - 1) == strings[n - 1] + Interpolate(value);
    var before, last := Reduced(strings, Mapped(Interpolate, values), n - 1), strings[n - 1];
    assert Html(strings, values).value == before + Piece(strings, Mapped(Interpolate, values), n - 1);
    assert Html(strings, values).value == before + last;
    assert Html(strings + [chunk], values + [value]).value == before + (last + Interpolate(value)) + chunk;
    assert before + (last + Interpolate(value)) == before + last + Interpolate(value);
  }

  lemma {:induction false} ReducedTakes(
    one: seq<string>, two: seq<string>, oneWritten: seq<string>, twoWritten: seq<string>, n: nat)
    requires n <= |two| <= |one| && n <= |twoWritten| <= |oneWritten|
    requires two <= one && twoWritten <= oneWritten
    ensures Reduced(one, oneWritten, n) == Reduced(two, twoWritten, n)
  {
    if n == 0 {
    } else {
      ReducedTakes(one, two, oneWritten, twoWritten, n - 1);
      assert Piece(one, oneWritten, n - 1) == Piece(two, twoWritten, n - 1);
    }
  }
}
