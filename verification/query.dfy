/** The deterministic part of `query_rag`: search parameters, the context block, the prompt,
    the source list and the returned text. The similarity search and the language model are
    parameters. */
module Query {
  import opened Wrappers
  import opened Text

  /** One search result: a stored chunk's text and its `id` metadata (None when absent).
      The similarity score is not used. */
  datatype Hit = Hit(content: string, id: Option<string>)

  /** The arguments of `similarity_search_with_score`. */
  datatype SearchRequest = SearchRequest(query: string, k: nat, filter: Option<map<string, string>>)

  /** Everything `query_rag` produces: what it asked the store for, the prompt it sent to the
      model, the sources it collected and the string it returns. */
  datatype Answer = Answer(request: SearchRequest, prompt: string, sources: seq<Option<string>>, text: string)

  /** Python truthiness of the optional category: neither None nor "". */
  predicate HasCategory(category: Option<string>) {
    category.Some? && category.value != ""
  }

  function Request(queryText: string, category: Option<string>): SearchRequest {
    var searchFilter := if HasCategory(category) then Some(map["category" := category.value]) else None;
    SearchRequest(queryText, if HasCategory(category) then 3 else 5, searchFilter)
  }

  function Contents(hits: seq<Hit>): (items: seq<string>)
    ensures |items| == |hits|
  {
    seq(|hits|, i requires 0 <= i < |hits| => hits[i].content)
  }

  /** The retrieved texts, in result order, separated by a blank line. */
  function Context(hits: seq<Hit>): string {
    Join("\n\n", Contents(hits))
  }

  const PromptHead := "\nAnswer questions strictly based on the provided context.\n\nContext:\n"
  const PromptMiddle := "\n\nQuestion: "
  const PromptTail := "\n\nFormat your response like this:\n**Answer:** <your answer here>\n"

  /** The fixed template with the context and the question filled in. */
  function Prompt(context: string, question: string): string {
    PromptHead + context + PromptMiddle + question + PromptTail
  }

  /** The `id` metadata of every result, in result order, with None where a result has
      none. */
  function Sources(hits: seq<Hit>): (sources: seq<Option<string>>)
    ensures |sources| == |hits|
  {
    seq(|hits|, i requires 0 <= i < |hits| => hits[i].id)
  }

  /** The returned text: the model's response after a `Response: ` label, then on a new
      line the rendered source list after a `Sources: ` label. */
  function Format(response: string, sources: seq<Option<string>>): string {
    "Response: " + response + "\nSources: " + RenderList(sources)
  }

  /** `query_rag`, given what the store returns for a request and what the model returns for
      a prompt. */
  function QueryRag(queryText: string, category: Option<string>,
                    search: SearchRequest -> seq<Hit>, generate: string -> string): (a: Answer)
    ensures a.request.query == queryText
    ensures HasCategory(category) ==> a.request.k == 3 && a.request.filter == Some(map["category" := category.value])
    ensures !HasCategory(category) ==> a.request.k == 5 && a.request.filter == None
    ensures a.prompt == Prompt(Context(search(a.request)), queryText)
    ensures |a.sources| == |search(a.request)|
    ensures forall i :: 0 <= i < |a.sources| ==> a.sources[i] == search(a.request)[i].id
    ensures a.text == "Response: " + generate(a.prompt) + "\nSources: " + RenderList(a.sources)
  {
    var request := Request(queryText, category);
    var results := search(request);
    var prompt := Prompt(Context(results), queryText);
    var response := generate(prompt);
    var sources := Sources(results);
    Answer(request, prompt, sources, Format(response, sources))
  }

  // ---------------------------------------------------------------------------
  // `str()` of a list of optional strings, as the f-string renders the sources.

  function HexDigit(d: nat): char
    requires d < 16
  {
    if d < 10 then DigitChar(d) else ('a' as int + d - 10) as char
  }

  predicate IsControl(c: char) {
    c as int < 32 || c as int == 127
  }

  /** One character inside a Python string literal delimited by `quote`. */
  function Escape(c: char, quote: char): string {
    if c == quote || c == '\\' then ['\\', c]
    else if c == '\t' then "\\t"
    else if c == '\n' then "\\n"
    else if c == '\r' then "\\r"
    else if IsControl(c) then "\\x" + [HexDigit(c as int / 16), HexDigit(c as int % 16)]
    else [c]
  }

  function EscapeAll(s: string, quote: char): string {
    if s == [] then [] else Escape(s[0], quote) + EscapeAll(s[1..], quote)
  }

  /** Python picks double quotes only for a string with a single quote and no double quote. */
  function QuoteFor(s: string): char {
    if '\'' in s && '"' !in s then '"' else '\''
  }

  /** `repr(s)`. */
  function Repr(s: string): string {
    [QuoteFor(s)] + EscapeAll(s, QuoteFor(s)) + [QuoteFor(s)]
  }

  function ReprOption(o: Option<string>): string {
    match o
    case None => "None"
    case Some(s) => Repr(s)
  }

  /** `str(sources)`: the elements' reprs, comma-separated, in brackets. */
  function RenderList(sources: seq<Option<string>>): string {
    "[" + Join(", ", seq(|sources|, i requires 0 <= i < |sources| => ReprOption(sources[i]))) + "]"
  }

  predicate IsHexDigit(c: char) {
    '0' <= c <= '9' || 'a' <= c <= 'f'
  }

  function HexValue(c: char): nat
    requires IsHexDigit(c)
  {
    if c <= '9' then c as int - '0' as int else c as int - 'a' as int + 10
  }

  /** Reads escaped text back, as the Python parser reads a string literal's body. */
  function Unescape(t: string): string
    decreases |t|
  {
    if t == [] then []
    else if t[0] != '\\' || |t| == 1 then [t[0]] + Unescape(t[1..])
    else if t[1] == 't' then "\t" + Unescape(t[2..])
    else if t[1] == 'n' then "\n" + Unescape(t[2..])
    else if t[1] == 'r' then "\r" + Unescape(t[2..])
    else if t[1] == 'x' && |t| >= 4 && IsHexDigit(t[2]) && IsHexDigit(t[3]) then
      [(HexValue(t[2]) * 16 + HexValue(t[3])) as char] + Unescape(t[4..])
    else [t[1]] + Unescape(t[2..])
  }

  lemma UnescapeOne(c: char, quote: char, rest: string)
    requires quote == '\'' || quote == '"'
    ensures Unescape(Escape(c, quote) + rest) == [c] + Unescape(rest)
  {
    var e := Escape(c, quote);
    if IsControl(c) && c != '\t' && c != '\n' && c != '\r' {
      var hi, lo := c as int / 16, c as int % 16;
      assert HexValue(HexDigit(hi)) == hi && HexValue(HexDigit(lo)) == lo;
      assert (e + rest)[4..] == rest;
    } else if |e| == 2 {
      assert (e + rest)[2..] == rest;
    } else {
      assert (e + rest)[1..] == rest;
    }
  }

  /** Escaping loses nothing: the escaped body reads back as the original string. */
  lemma {:induction false} UnescapeEscapeAll(s: string, quote: char)
    requires quote == '\'' || quote == '"'
    ensures Unescape(EscapeAll(s, quote)) == s
  {
    if s != [] {
      UnescapeOne(s[0], quote, EscapeAll(s[1..], quote));
      UnescapeEscapeAll(s[1..], quote);
    }
  }

  /** Every quote character inside the literal's body comes right after a backslash. */
  lemma {:induction false} EscapedQuoteFollowsBackslash(s: string, quote: char, i: nat)
    requires quote == '\'' || quote == '"'
    requires i < |EscapeAll(s, quote)| && EscapeAll(s, quote)[i] == quote
    ensures i > 0 && EscapeAll(s, quote)[i - 1] == '\\'
  {
    var e := Escape(s[0], quote);
    assert EscapeAll(s, quote) == e + EscapeAll(s[1..], quote);
    if i >= |e| {
      EscapedQuoteFollowsBackslash(s[1..], quote, i - |e|);
    }
  }

  /** Where a reader of Python source finds the end of a string literal's body in `t`: the
      first quote that is not the second character of a backslash pair. */
  function LiteralEnd(t: string, quote: char): (n: nat)
    ensures n <= |t|
    decreases |t|
  {
    if t == [] || t[0] == quote then 0
    else if t[0] == '\\' && |t| >= 2 then 2 + LiteralEnd(t[2..], quote)
    else 1 + LiteralEnd(t[1..], quote)
  }

  lemma LiteralEndOne(c: char, quote: char, t: string)
    requires quote == '\'' || quote == '"'
    ensures LiteralEnd(Escape(c, quote) + t, quote) == |Escape(c, quote)| + LiteralEnd(t, quote)
  {
    var e := Escape(c, quote);
    var r := e + t;
    if c == quote || c == '\\' || c == '\t' || c == '\n' || c == '\r' {
      assert r[0] == '\\' && r[2..] == t;
    } else if IsControl(c) {
      var hi, lo := HexDigit(c as int / 16), HexDigit(c as int % 16);
      assert e == ['\\', 'x', hi, lo];
      LiteralEndHex(hi, lo, quote, t);
    } else {
      assert e == [c] && r[1..] == t;
    }
  }

  /** A `\\x` escape is read as one backslash pair and two plain characters. */
  lemma LiteralEndHex(hi: char, lo: char, quote: char, t: string)
    requires IsHexDigit(hi) && IsHexDigit(lo) && (quote == '\'' || quote == '"')
    ensures LiteralEnd(['\\', 'x', hi, lo] + t, quote) == 4 + LiteralEnd(t, quote)
  {
    var r, r2, r3 := ['\\', 'x', hi, lo] + t, [hi, lo] + t, [lo] + t;
    assert r[2..] == r2 && r2[1..] == r3 && r3[1..] == t;
    assert LiteralEnd(r3, quote) == 1 + LiteralEnd(t, quote);
    assert LiteralEnd(r2, quote) == 1 + LiteralEnd(r3, quote);
    assert LiteralEnd(r, quote) == 2 + LiteralEnd(r2, quote);
  }

  /** The escaped body never ends the literal early: the reader stops exactly at the quote
      that follows it, and what it read unescapes to the original string. */
  lemma {:induction false} LiteralEndsAtClosingQuote(s: string, quote: char, rest: string)
    requires quote == '\'' || quote == '"'
    ensures LiteralEnd(EscapeAll(s, quote) + [quote] + rest, quote) == |EscapeAll(s, quote)|
  {
    if s == [] {
      assert EscapeAll(s, quote) + [quote] + rest == [quote] + rest;
    } else {
      var e, tail := Escape(s[0], quote), EscapeAll(s[1..], quote);
      assert EscapeAll(s, quote) + [quote] + rest == e + (tail + [quote] + rest);
      LiteralEndOne(s[0], quote, tail + [quote] + rest);
      LiteralEndsAtClosingQuote(s[1..], quote, rest);
    }
  }

  /** Reading `repr(s)` back, followed by any text: the literal opens with its quote, ends at
      its closing quote, and its body unescapes to `s`. */
  lemma ReprReadsBack(s: string, rest: string)
    ensures var r, q := Repr(s) + rest, QuoteFor(s);
      var body := r[1..];
      r[0] == q && LiteralEnd(body, q) == |Repr(s)| - 2 &&
      Unescape(body[..LiteralEnd(body, q)]) == s
  {
    var q := QuoteFor(s);
    var e := EscapeAll(s, q);
    var r := Repr(s) + rest;
    assert r[1..] == e + [q] + rest;
    LiteralEndsAtClosingQuote(s, q, rest);
    assert r[1..][..|e|] == e;
    UnescapeEscapeAll(s, q);
  }

  /** Identifiers without quotes, backslashes or control characters render between single
      quotes as they are. */
  lemma {:induction false} ReprOfPlain(s: string)
    requires forall i :: 0 <= i < |s| ==> s[i] != '\'' && s[i] != '\\' && !IsControl(s[i])
    ensures Repr(s) == "'" + s + "'"
  {
    assert QuoteFor(s) == '\'';
    EscapePlain(s);
  }

  lemma {:induction false} EscapePlain(s: string)
    requires forall i :: 0 <= i < |s| ==> s[i] != '\'' && s[i] != '\\' && !IsControl(s[i])
    ensures EscapeAll(s, '\'') == s
  {
    if s != [] {
      EscapePlain(s[1..]);
    }
  }

  // ---------------------------------------------------------------------------
  // Properties of the glue.

  /** A category narrows the search to 3 results whose `category` metadata equals it. */
  lemma CategoryNarrowsSearch(queryText: string, category: string)
    requires category != ""
    ensures Request(queryText, Some(category)) == SearchRequest(queryText, 3, Some(map["category" := category]))
  {
  }

  /** No category and the empty category are the same request: 5 results, no filter. */
  lemma NoCategoryNoFilter(queryText: string)
    ensures Request(queryText, None) == Request(queryText, Some(""))
    ensures Request(queryText, None) == SearchRequest(queryText, 5, None)
  {
  }

  /** No results is not an error: the context is simply empty. */
  lemma EmptyResultsEmptyContext()
    ensures Context([]) == ""
    ensures RenderList(Sources([])) == "[]"
  {
  }

  /** Every retrieved text appears in the context, and the context is exactly their lengths
      plus a two-character separator between neighbours. */
  lemma ContextHoldsEveryResult(hits: seq<Hit>)
    ensures forall i :: 0 <= i < |hits| ==> Occurs(hits[i].content, Context(hits))
    ensures hits != [] ==> |Context(hits)| == TotalLength(Contents(hits)) + 2 * (|hits| - 1)
  {
    forall i | 0 <= i < |hits| ensures Occurs(hits[i].content, Context(hits)) {
      JoinContainsItem("\n\n", Contents(hits), i);
    }
    if hits != [] {
      JoinLength("\n\n", Contents(hits));
    }
  }

  /** The prompt carries the context and the question between the fixed parts. */
  lemma PromptCarriesContextAndQuestion(context: string, question: string)
    ensures Occurs(context, Prompt(context, question))
    ensures Occurs(question, Prompt(context, question))
  {
    var p := Prompt(context, question);
    var i := |PromptHead|;
    assert p[i..i + |context|] == context;
    assert OccursAt(context, p, i);
    var j := |PromptHead + context + PromptMiddle|;
    assert p[j..j + |question|] == question;
    assert OccursAt(question, p, j);
  }

  /** A single plain identifier and a missing one render as Python prints them. */
  lemma RenderExamples(id: string)
    requires forall i :: 0 <= i < |id| ==> id[i] != '\'' && id[i] != '\\' && !IsControl(id[i])
    ensures RenderList([Some(id)]) == "['" + id + "']"
    ensures RenderList([None]) == "[None]"
    ensures RenderList([Some(id), None]) == "['" + id + "', None]"
  {
    ReprOfPlain(id);
    var two := seq(2, i requires 0 <= i < 2 => ReprOption([Some(id), None][i]));
    assert two == [Repr(id), "None"];
    assert two[..1] == [Repr(id)];
    assert Join(", ", two) == Repr(id) + ", " + "None";
    assert RenderList([Some(id), None]) == "[" + ("'" + id + "'") + ", " + "None" + "]";
  }
}
