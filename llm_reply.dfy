/**
 * The clean-up the backend applies to a language model's reply before handing
 * it to the JSON parser, and the choice of model provider. The parser
 * (`json.loads`) is a parameter `parse`, a partial function given as a total one
 * that answers None where the real parser raises; the model calls themselves
 * are left out, so every operation starts from the reply text.
 */
module LlmReply {
  import opened Options

  // ---------------------------------------------------------------------------
  // String helpers with Python's semantics

  predicate StartsWith(s: string, prefix: string) {
    |prefix| <= |s| && s[..|prefix|] == prefix
  }

  predicate EndsWith(s: string, suffix: string) {
    |suffix| <= |s| && s[|s| - |suffix|..] == suffix
  }

  /** Python's `str.isspace()` for one character. */
  predicate IsSpace(c: char) {
    || ('\t' <= c <= '\r')
    || ('\U{1C}' <= c <= ' ')
    || c == '\U{85}' || c == '\U{A0}' || c == '\U{1680}'
    || ('\U{2000}' <= c <= '\U{200A}')
    || c == '\U{2028}' || c == '\U{2029}' || c == '\U{202F}' || c == '\U{205F}' || c == '\U{3000}'
  }

  ghost predicate AllSpace(s: string) {
    forall k :: 0 <= k < |s| ==> IsSpace(s[k])
  }

  /** The number of whitespace characters `s` starts with. */
  function LeadingSpaces(s: string): (n: nat)
    ensures n <= |s|
    ensures forall k :: 0 <= k < n ==> IsSpace(s[k])
    ensures n == |s| || !IsSpace(s[n])
  {
    if s != [] && IsSpace(s[0]) then 1 + LeadingSpaces(s[1..]) else 0
  }

  /** The number of whitespace characters `s` ends with. */
  function TrailingSpaces(s: string): (n: nat)
    ensures n <= |s|
    ensures forall k :: |s| - n <= k < |s| ==> IsSpace(s[k])
    ensures n == |s| || !IsSpace(s[|s| - 1 - n])
  {
    if s != [] && IsSpace(s[|s| - 1]) then 1 + TrailingSpaces(s[..|s| - 1]) else 0
  }

  /** `r` is `s` with `lo` whitespace characters cut in front and only
      whitespace cut behind. */
  ghost predicate StrippedAt(s: string, r: string, lo: nat) {
    && lo + |r| <= |s|
    && r == s[lo..lo + |r|]
    && (forall k :: 0 <= k < lo ==> IsSpace(s[k]))
    && (forall k :: lo + |r| <= k < |s| ==> IsSpace(s[k]))
  }

  /** Python's `str.strip()` with no argument. */
  function Strip(s: string): (r: string)
    ensures exists lo: nat :: StrippedAt(s, r, lo)
    ensures r == [] || (!IsSpace(r[0]) && !IsSpace(r[|r| - 1]))
  {
    var lo := LeadingSpaces(s);
    if lo == |s| then
      assert StrippedAt(s, [], lo);
      []
    else
      var hi := |s| - TrailingSpaces(s);
      assert lo < hi;
      assert StrippedAt(s, s[lo..hi], lo);
      s[lo..hi]
  }

  lemma {:induction false} LeadingPadded(pre: string, x: string)
    requires AllSpace(pre) && x != [] && !IsSpace(x[0])
    ensures LeadingSpaces(pre + x) == |pre|
  {
    if pre != [] {
      assert (pre + x)[1..] == pre[1..] + x;
      LeadingPadded(pre[1..], x);
    }
  }

  lemma {:induction false} TrailingPadded(x: string, post: string)
    requires AllSpace(post) && x != [] && !IsSpace(x[|x| - 1])
    ensures TrailingSpaces(x + post) == |post|
  {
    if post != [] {
      var init := post[..|post| - 1];
      assert (x + post)[..|x + post| - 1] == x + init;
      TrailingPadded(x, init);
    } else {
      assert x + post == x;
    }
  }

  /** Stripping removes exactly the whitespace padding around a text that does
      not itself begin or end with whitespace. */
  lemma StripPadded(pre: string, core: string, post: string)
    requires AllSpace(pre) && AllSpace(post)
    requires core != [] && !IsSpace(core[0]) && !IsSpace(core[|core| - 1])
    ensures Strip(pre + core + post) == core
  {
    var s := pre + core + post;
    assert s == pre + (core + post);
    LeadingPadded(pre, core + post);
    TrailingPadded(pre + core, post);
    assert s[|pre|..|s| - |post|] == core;
  }

  predicate IsAsciiUpper(c: char) {
    'A' <= c <= 'Z'
  }

  predicate IsAsciiLower(c: char) {
    'a' <= c <= 'z'
  }

  /** Python's `str.lower()` on one character; only ASCII letters change, which
      is exact for comparisons against an ASCII word. */
  function Lower(c: char): (r: char)
    ensures !IsAsciiUpper(r)
    ensures IsAsciiUpper(c) ==> r as int == c as int + 32
    ensures !IsAsciiUpper(c) ==> r == c
  {
    if IsAsciiUpper(c) then (c as int - 'A' as int + 'a' as int) as char else c
  }

  /** Python's `str.upper()` on one character, under the same ASCII reading. */
  function Upper(c: char): (r: char)
    ensures !IsAsciiLower(r)
    ensures IsAsciiLower(c) ==> c as int == r as int + 32
    ensures !IsAsciiLower(c) ==> r == c
  {
    if IsAsciiLower(c) then (c as int - 'a' as int + 'A' as int) as char else c
  }

  /** `a` and `b` are the same character, or the two cases of one ASCII letter. */
  predicate SameIgnoringCase(a: char, b: char) {
    || a == b
    || (IsAsciiUpper(a) && b as int == a as int + 32)
    || (IsAsciiUpper(b) && a as int == b as int + 32)
  }

  function LowerStr(s: string): (r: string)
    ensures |r| == |s| && forall k :: 0 <= k < |s| ==> r[k] == Lower(s[k])
  {
    seq(|s|, k requires 0 <= k < |s| => Lower(s[k]))
  }

  function UpperStr(s: string): (r: string)
    ensures |r| == |s| && forall k :: 0 <= k < |s| ==> r[k] == Upper(s[k])
  {
    seq(|s|, k requires 0 <= k < |s| => Upper(s[k]))
  }

  lemma LowerSame(a: char, b: char)
    ensures Lower(a) == Lower(b) <==> SameIgnoringCase(a, b)
  {
  }

  lemma UpperSame(a: char, b: char)
    ensures Upper(a) == Upper(b) <==> SameIgnoringCase(a, b)
  {
  }

  /** Two strings lower-case to the same string exactly when they differ at
      most in the case of ASCII letters. */
  lemma LowerStrEqual(s: string, t: string)
    ensures LowerStr(s) == LowerStr(t) <==>
      |s| == |t| && forall k :: 0 <= k < |s| ==> SameIgnoringCase(s[k], t[k])
  {
    if LowerStr(s) == LowerStr(t) {
      forall k | 0 <= k < |s| ensures SameIgnoringCase(s[k], t[k]) {
        assert LowerStr(s)[k] == LowerStr(t)[k];
        LowerSame(s[k], t[k]);
      }
    }
    if |s| == |t| && forall k :: 0 <= k < |s| ==> SameIgnoringCase(s[k], t[k]) {
      forall k | 0 <= k < |s| ensures LowerStr(s)[k] == LowerStr(t)[k] {
        LowerSame(s[k], t[k]);
      }
    }
  }

  /** Two strings upper-case to the same string exactly when they differ at
      most in the case of ASCII letters. */
  lemma UpperStrEqual(s: string, t: string)
    ensures UpperStr(s) == UpperStr(t) <==>
      |s| == |t| && forall k :: 0 <= k < |s| ==> SameIgnoringCase(s[k], t[k])
  {
    if UpperStr(s) == UpperStr(t) {
      forall k | 0 <= k < |s| ensures SameIgnoringCase(s[k], t[k]) {
        assert UpperStr(s)[k] == UpperStr(t)[k];
        UpperSame(s[k], t[k]);
      }
    }
    if |s| == |t| && forall k :: 0 <= k < |s| ==> SameIgnoringCase(s[k], t[k]) {
      forall k | 0 <= k < |s| ensures UpperStr(s)[k] == UpperStr(t)[k] {
        UpperSame(s[k], t[k]);
      }
    }
  }

  /** The Gemini reply reads "null" once lower-cased. */
  predicate IsNullWord(text: string) {
    LowerStr(text) == "null"
  }

  /** The null test accepts exactly the 16 spellings of "null" in any mix of cases. */
  lemma NullWordAnyCase(text: string)
    ensures IsNullWord(text) <==>
      |text| == 4 && forall k :: 0 <= k < 4 ==> text[k] == "null"[k] || text[k] == "NULL"[k]
  {
    if |text| == 4 && forall k :: 0 <= k < 4 ==> text[k] == "null"[k] || text[k] == "NULL"[k] {
      assert LowerStr(text) == "null";
    }
  }

  // ---------------------------------------------------------------------------
  // Markdown fences around a Gemini reply

  const JsonFence: string := "```json"
  const Fence: string := "```"

  /** Drops the seven characters of an opening ```json marker, when the text
      starts with one. */
  function DropOpeningFence(text: string): (r: string)
    ensures StartsWith(text, JsonFence) ==> JsonFence + r == text
    ensures !StartsWith(text, JsonFence) ==> r == text
  {
    if StartsWith(text, JsonFence) then text[|JsonFence|..] else text
  }

  /** Drops a closing ``` marker, when the text ends with one. */
  function DropClosingFence(text: string): (r: string)
    ensures EndsWith(text, Fence) ==> r + Fence == text
    ensures !EndsWith(text, Fence) ==> r == text
  {
    if EndsWith(text, Fence) then text[..|text| - |Fence|] else text
  }

  /** Both clean-up steps, in the order the provider applies them. */
  function StripFences(text: string): string {
    DropClosingFence(DropOpeningFence(text))
  }

  /** A body wrapped in a ```json fence comes back unchanged, whatever it holds. */
  lemma FencedRoundTrip(body: string)
    ensures StripFences(JsonFence + body + Fence) == body
  {
    var text := JsonFence + body + Fence;
    assert text[..|JsonFence|] == JsonFence;
    assert text[|JsonFence|..] == body + Fence;
    assert (body + Fence)[|body + Fence| - |Fence|..] == Fence;
    assert (body + Fence)[..|body|] == body;
  }

  /** Text with neither marker is left as it is. */
  lemma UnfencedUnchanged(text: string)
    requires !StartsWith(text, JsonFence) && !EndsWith(text, Fence)
    ensures StripFences(text) == text
  {
  }

  // ---------------------------------------------------------------------------
  // GeminiProvider

  /** The exception `json.loads` raises on text that is not JSON. */
  datatype DecodeError = JsonDecodeError

  /** `GeminiProvider.extract_data` after the model call: the parse error is not
      caught and reaches the caller. */
  function GeminiExtract<J>(reply: string, parse: string -> Option<J>): (r: Result<J, DecodeError>)
    ensures r.Ok? <==> parse(StripFences(reply)).Some?
    ensures r.Ok? ==> parse(StripFences(reply)) == Some(r.value)
  {
    match parse(StripFences(reply))
    case Some(v) => Ok(v)
    case None => Err(JsonDecodeError)
  }

  /** `GeminiProvider.interpret_command` after the model call: the reply is
      stripped, unfenced, tested for "null" and parsed; a parse failure gives None. */
  function GeminiInterpret<J>(reply: string, parse: string -> Option<J>): (r: Option<J>)
    ensures var text := StripFences(Strip(reply));
      && (r.Some? <==> !IsNullWord(text) && parse(text).Some?)
      && (r.Some? ==> parse(text) == r)
  {
    var text := StripFences(Strip(reply));
    if IsNullWord(text) then None
    else
      match parse(text)
      case Some(v) => Some(v)
      case None => None
  }

  /** A fenced reply with whitespace around it is parsed from exactly its body,
      unless the body reads "null" in some case. */
  lemma GeminiInterpretPadded<J>(pre: string, body: string, post: string, parse: string -> Option<J>)
    requires AllSpace(pre) && AllSpace(post)
    ensures GeminiInterpret(pre + JsonFence + body + Fence + post, parse) ==
      if IsNullWord(body) then None else parse(body)
  {
    var core := JsonFence + body + Fence;
    assert pre + JsonFence + body + Fence + post == pre + core + post;
    StripPadded(pre, core, post);
    FencedRoundTrip(body);
  }

  /** The null test runs before the JSON parse and after the fences are cut, but
      the text is not stripped again in between: a fenced "null" on lines of its
      own fails the test and goes to the parser with its line breaks. */
  lemma FencedNullMissesNullTest<J>(parse: string -> Option<J>)
    ensures var reply := JsonFence + "\nnull\n" + Fence;
      && !IsNullWord(StripFences(Strip(reply)))
      && GeminiInterpret(reply, parse) == parse("\nnull\n")
  {
    var body := "\nnull\n";
    var reply := JsonFence + body + Fence;
    assert [] + reply + [] == reply;
    StripPadded([], reply, []);
    FencedRoundTrip(body);
    assert |LowerStr(body)| == 6;
  }

  // ---------------------------------------------------------------------------
  // LocalLLMProvider

  /** Python's `str.find(c)`: the first index of `c`, or -1. */
  function Find(s: string, c: char): (r: int)
    ensures -1 <= r < |s|
    ensures r == -1 <==> c !in s
    ensures r >= 0 ==> s[r] == c && c !in s[..r]
  {
    if s == [] then -1
    else if s[0] == c then 0
    else
      var k := Find(s[1..], c);
      assert s[1..][..if k < 0 then 0 else k] == s[1..if k < 0 then 1 else k + 1];
      if k == -1 then -1 else k + 1
  }

  /** Python's `str.rfind(c)`: the last index of `c`, or -1. */
  function RFind(s: string, c: char): (r: int)
    ensures -1 <= r < |s|
    ensures r == -1 <==> c !in s
    ensures r >= 0 ==> s[r] == c && c !in s[r + 1..]
  {
    if s == [] then -1
    else if s[|s| - 1] == c then |s| - 1
    else
      var init := s[..|s| - 1];
      assert s == init + [s[|s| - 1]];
      RFind(init, c)
  }

  /** The slicing heuristic: from the first `open` through the last `close`.
      None when there is no `open`; the `end != -1` test never fails, so an
      absent or too-early `close` gives the empty slice. */
  function BracketSlice(s: string, open: char, close: char): (r: Option<string>)
    ensures r.None? <==> open !in s
    ensures r.Some? ==> (r.value == [] <==> close !in s[Find(s, open)..])
    ensures r.Some? && r.value != [] ==>
      var start := Find(s, open);
      && start + |r.value| <= |s|
      && r.value == s[start..start + |r.value|]
      && r.value[0] == open && r.value[|r.value| - 1] == close
      && close !in s[start + |r.value|..]
  {
    var start := Find(s, open);
    var end := RFind(s, close) + 1;
    if start != -1 && end != -1 then
      Some(if start < end then s[start..end] else [])
    else
      None
  }

  /** The slice of a reply whose text around the outer brackets holds no
      bracket of the wrong side is exactly the bracketed part. */
  lemma BracketSliceWrapped(pre: string, body: string, post: string, open: char, close: char)
    requires open !in pre && close !in post
    ensures BracketSlice(pre + [open] + body + [close] + post, open, close) == Some([open] + body + [close])
  {
    var s := pre + [open] + body + [close] + post;
    var start := Find(s, open);
    assert s[|pre|] == open;
    assert s[..|pre|] == pre;
    assert start == |pre|;
    var last := |pre| + 1 + |body|;
    assert s[last] == close;
    assert s[last + 1..] == post;
    var r := RFind(s, close);
    assert r == last;
    assert s[start..r + 1] == [open] + body + [close];
  }

  /** What `extract_data` returns: the parsed value, or the empty list `[]`. */
  datatype Extracted<J> = Parsed(value: J) | EmptyList

  /** `LocalLLMProvider.extract_data` after the model call. */
  function LocalExtract<J>(reply: string, parse: string -> Option<J>): (r: Extracted<J>)
    ensures r.Parsed? <==> '[' in reply && parse(BracketSlice(reply, '[', ']').value).Some?
    ensures r.Parsed? ==> parse(BracketSlice(reply, '[', ']').value) == Some(r.value)
  {
    match BracketSlice(reply, '[', ']')
    case None => EmptyList
    case Some(jsonStr) =>
      match parse(jsonStr)
      case Some(v) => Parsed(v)
      case None => EmptyList
  }

  /** Since `json.loads("")` raises, a reply without `[`, or without `]` after its
      first `[`, yields `[]`. */
  lemma LocalExtractNeedsBrackets<J>(reply: string, parse: string -> Option<J>)
    requires parse("").None?
    requires '[' !in reply || ']' !in reply[Find(reply, '[')..]
    ensures LocalExtract(reply, parse) == EmptyList
  {
  }

  /** A reply holding one outer `[...]` with no stray brackets around it is parsed
      from exactly that list. */
  lemma LocalExtractWrapped<J>(pre: string, body: string, post: string, parse: string -> Option<J>)
    requires '[' !in pre && ']' !in post
    ensures LocalExtract(pre + "[" + body + "]" + post, parse) ==
      match parse("[" + body + "]")
      case Some(v) => Parsed(v)
      case None => EmptyList
  {
    BracketSliceWrapped(pre, body, post, '[', ']');
    assert pre + "[" + body + "]" + post == pre + ['['] + body + [']'] + post;
  }

  /** `LocalLLMProvider.interpret_command` after the model call. The two branches
      taken when there is no `{` both return None, whether or not the reply
      mentions "null", so they are one branch here. */
  function LocalInterpret<J>(reply: string, parse: string -> Option<J>): (r: Option<J>)
    ensures r.Some? ==> '{' in reply
    ensures '{' in reply ==> r == parse(BracketSlice(reply, '{', '}').value)
  {
    match BracketSlice(reply, '{', '}')
    case None => None
    case Some(jsonStr) => parse(jsonStr)
  }

  /** A reply holding one outer `{...}` with no stray braces around it is parsed
      from exactly that object. */
  lemma LocalInterpretWrapped<J>(pre: string, body: string, post: string, parse: string -> Option<J>)
    requires '{' !in pre && '}' !in post
    ensures LocalInterpret(pre + "{" + body + "}" + post, parse) == parse("{" + body + "}")
  {
    BracketSliceWrapped(pre, body, post, '{', '}');
    assert pre + "{" + body + "}" + post == pre + ['{'] + body + ['}'] + post;
  }

  // ---------------------------------------------------------------------------
  // get_llm_provider

  datatype Provider = GeminiProvider | LocalLlmProvider

  /** The `ValueError` GeminiProvider's constructor raises without an API key. */
  datatype ConfigError = MissingGeminiApiKey

  /** `get_llm_provider`, given the environment variables `LLM_TYPE` and
      `GEMINI_API_KEY` (None when unset). */
  function GetLlmProvider(llmType: Option<string>, geminiApiKey: Option<string>): (r: Result<Provider, ConfigError>)
    ensures var kind := if llmType.Some? then llmType.value else "CLOUD";
      && (r == Ok(LocalLlmProvider) <==> UpperStr(kind) == "LOCAL")
      && (r == Ok(GeminiProvider) <==> UpperStr(kind) != "LOCAL" && geminiApiKey.Some? && geminiApiKey.value != "")
      && (r.Err? <==> UpperStr(kind) != "LOCAL" && (geminiApiKey.None? || geminiApiKey.value == ""))
  {
    var kind := UpperStr(if llmType.Some? then llmType.value else "CLOUD");
    if kind == "LOCAL" then Ok(LocalLlmProvider)
    else if geminiApiKey.None? || geminiApiKey.value == "" then Err(MissingGeminiApiKey)
    else Ok(GeminiProvider)
  }

  /** The local provider is chosen for exactly the spellings of "local" in any
      mix of cases; the default "CLOUD" is not one of them. */
  lemma LocalChosenAnyCase(kind: string)
    ensures UpperStr(kind) == "LOCAL" <==>
      |kind| == 5 && forall k :: 0 <= k < 5 ==> kind[k] == "LOCAL"[k] || kind[k] == "local"[k]
    ensures UpperStr("CLOUD") != "LOCAL"
  {
    if |kind| == 5 && forall k :: 0 <= k < 5 ==> kind[k] == "LOCAL"[k] || kind[k] == "local"[k] {
      assert UpperStr(kind) == "LOCAL";
    }
    assert UpperStr("CLOUD")[0] == 'C';
  }
}
