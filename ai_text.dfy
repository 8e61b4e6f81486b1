/** The model-facing helpers of src/lib/ai.ts: which configuration a provider name selects, the
    guards before a request, the cleanup of a generated text and the unwrapping of a generated
    quiz list. The request itself is an input: what came back is a `Response` value, and the
    JSON reader is a function parameter. */
module AiText {
  import opened Strings

  datatype AIConfig = AIConfig(apiKey: Option<string>, endpoint: Option<string>, model: Option<string>)

  function EnvVar(env: map<string, string>, name: string): Option<string> {
    if name in env then Some(env[name]) else None
  }

  /** `getAIConfig(provider)`: the variables of the build environment named after the provider,
      `deepseek` and `gemini` by their own names and every other name as `openai`. */
  function GetAIConfig(provider: string, env: map<string, string>): AIConfig {
    var prefix := if provider == "deepseek" then "VITE_DEEPSEEK_"
                  else if provider == "gemini" then "VITE_GEMINI_"
                  else "VITE_OPENAI_";
    AIConfig(EnvVar(env, prefix + "API_KEY"), EnvVar(env, prefix + "ENDPOINT"), EnvVar(env, prefix + "MODEL"))
  }

  /** Every provider name other than `deepseek` and `gemini` gets the OpenAI configuration, and
      each of the three reads its own key variable. */
  lemma ConfigSelection(provider: string, env: map<string, string>)
    ensures provider != "deepseek" && provider != "gemini" ==> GetAIConfig(provider, env) == GetAIConfig("openai", env)
    ensures GetAIConfig("openai", env).apiKey == EnvVar(env, "VITE_OPENAI_API_KEY")
    ensures GetAIConfig("deepseek", env).apiKey == EnvVar(env, "VITE_DEEPSEEK_API_KEY")
    ensures GetAIConfig("gemini", env).apiKey == EnvVar(env, "VITE_GEMINI_API_KEY")
  {
    assert "VITE_OPENAI_" + "API_KEY" == "VITE_OPENAI_API_KEY";
    assert "VITE_DEEPSEEK_" + "API_KEY" == "VITE_DEEPSEEK_API_KEY";
    assert "VITE_GEMINI_" + "API_KEY" == "VITE_GEMINI_API_KEY";
  }

  /** A request is sent only with a key and an endpoint. */
  predicate Ready(config: AIConfig) {
    Truthy(config.apiKey) && Truthy(config.endpoint)
  }

  /** What a request came back with: an error status, no readable reply at all, or a reply
      whose first choice carries the given content, if any. */
  datatype Response = HttpError(status: int) | Broken | Reply(content: Option<string>)

  // ---------------------------------------------------------------------------------
  // Cleaning a generated text

  /** The characters of `s` other than `c`. */
  function DropChar(s: string, c: char): (r: string)
    ensures c !in r
    ensures c !in s ==> r == s
  {
    if s == [] then [] else (if s[0] == c then [] else [s[0]]) + DropChar(s[1..], c)
  }

  /** Removing a character works one character at a time, in order: the character goes,
      every other character stays where it was. */
  lemma {:induction false} DropCharAppend(a: string, b: string, c: char)
    ensures DropChar(a + b, c) == DropChar(a, c) + DropChar(b, c)
  {
    if a == [] {
      assert a + b == b;
    } else {
      assert (a + b)[1..] == a[1..] + b;
      DropCharAppend(a[1..], b, c);
    }
  }

  lemma DropCharOne(x: char, c: char)
    ensures DropChar([x], c) == if x == c then [] else [x]
  {
  }

  /** The first replacement of the cleanup: pairs of asterisks removed from left to right. */
  function DropDoubleStar(s: string): string {
    if |s| >= 2 && s[0] == '*' && s[1] == '*' then DropDoubleStar(s[2..])
    else if s == [] then []
    else [s[0]] + DropDoubleStar(s[1..])
  }

  /** Removing pairs first changes nothing once single asterisks are removed too. */
  lemma {:induction false} DoubleStarRedundant(s: string)
    ensures DropChar(DropDoubleStar(s), '*') == DropChar(s, '*')
  {
    if |s| >= 2 && s[0] == '*' && s[1] == '*' {
      DoubleStarRedundant(s[2..]);
      assert s[1..][1..] == s[2..];
    } else if s != [] {
      DoubleStarRedundant(s[1..]);
      assert ([s[0]] + DropDoubleStar(s[1..]))[1..] == DropDoubleStar(s[1..]);
    }
  }

  /** The text shown when the reply has no content. */
  const Fallback := "生成失败，未返回有效内容。"

  /** The lines of `s`, trimmed, empty ones dropped. */
  function CleanLines(s: string): seq<string> {
    NonEmpty(TrimAll(Split(s, '\n')))
  }

  /** The cleanup of `generateText`: the content, or the fallback when there is none, without
      asterisks, cut into lines that are trimmed, with the empty ones dropped, joined by single
      line breaks. */
  function CleanGenerated(content: Option<string>): string {
    var text := if Truthy(content) then content.value else Fallback;
    Join(CleanLines(DropChar(DropDoubleStar(text), '*')), "\n")
  }

  /** A text as the cleanup leaves it: empty, or without asterisks and made of non-empty
      trimmed lines. */
  predicate IsClean(r: string) {
    r == "" || ('*' !in r && forall k :: 0 <= k < |Split(r, '\n')| ==> Split(r, '\n')[k] != [] && IsTrimmed(Split(r, '\n')[k]))
  }

  lemma {:induction false} SplitChars(s: string, c: char, x: char)
    requires x !in s
    ensures forall k :: 0 <= k < |Split(s, c)| ==> x !in Split(s, c)[k]
  {
    if s != [] {
      SplitChars(s[1..], c, x);
    }
  }

  /** The cleaned lines are non-empty and trimmed, hold no line break, and hold no character the
      text did not. */
  lemma CleanLinesShape(s: string, x: char)
    ensures forall k :: 0 <= k < |CleanLines(s)| ==>
      CleanLines(s)[k] != [] && IsTrimmed(CleanLines(s)[k]) && '\n' !in CleanLines(s)[k]
    ensures x !in s ==> forall k :: 0 <= k < |CleanLines(s)| ==> x !in CleanLines(s)[k]
  {
    var pieces := Split(s, '\n');
    var trimmed := TrimAll(pieces);
    forall k | 0 <= k < |trimmed|
      ensures IsTrimmed(trimmed[k]) && '\n' !in trimmed[k] && (x !in s ==> x !in trimmed[k])
    {
      TrimChars(pieces[k]);
      if x !in s {
        SplitChars(s, '\n', x);
      }
    }
  }

  lemma {:induction false} JoinFree(parts: seq<string>, sep: string, x: char)
    requires x !in sep && forall k :: 0 <= k < |parts| ==> x !in parts[k]
    ensures x !in Join(parts, sep)
  {
    if |parts| > 1 {
      JoinFree(parts[1..], sep, x);
    }
  }

  /** What the cleanup returns is clean. */
  lemma CleanGeneratedIsClean(content: Option<string>)
    ensures IsClean(CleanGenerated(content))
  {
    var text := if Truthy(content) then content.value else Fallback;
    var stripped := DropChar(DropDoubleStar(text), '*');
    var lines := CleanLines(stripped);
    CleanLinesShape(stripped, '*');
    JoinFree(lines, "\n", '*');
    if lines != [] {
      SplitJoin(lines, '\n');
    }
  }

  lemma {:induction false} ConcatNonEmpty(xs: seq<string>)
    ensures Concat(NonEmpty(xs)) == Concat(xs)
  {
    if xs != [] {
      ConcatNonEmpty(xs[1..]);
      ConcatAppend(if xs[0] == [] then [] else [xs[0]], NonEmpty(xs[1..]));
      if xs[0] != [] {
        assert Concat([xs[0]]) == xs[0] + Concat([]);
      }
    }
  }

  /** Cutting into trimmed non-empty lines and joining them again keeps every character that
      is not whitespace, in order. */
  lemma NewlineIsWS()
    ensures AllWS("\n")
  {
    assert "\n"[0] == '\n';
  }

  lemma LinesKeepVisible(s: string)
    ensures Visible(Join(CleanLines(s), "\n")) == Visible(s)
  {
    var nl := "\n";
    var pieces := Split(s, '\n');
    var lines := CleanLines(s);
    NewlineIsWS();
    assert Visible(Join(lines, nl)) == Visible(Concat(lines)) by {
      VisibleJoin(lines, nl);
    }
    assert Concat(lines) == Concat(TrimAll(pieces)) by {
      ConcatNonEmpty(TrimAll(pieces));
    }
    assert Visible(Concat(TrimAll(pieces))) == Visible(Concat(pieces)) by {
      VisibleConcatTrimAll(pieces);
    }
    assert Visible(Concat(pieces)) == Visible(Join(pieces, nl)) by {
      VisibleJoin(pieces, nl);
    }
    assert Join(pieces, nl) == s by {
      JoinSplit(s, '\n');
    }
  }

  /** The cleanup drops only asterisks and whitespace: every other character of the content
      is kept, in order. */
  lemma CleanKeepsVisible(content: Option<string>)
    ensures var text := if Truthy(content) then content.value else Fallback;
      Visible(CleanGenerated(content)) == Visible(DropChar(text, '*'))
  {
    var text := if Truthy(content) then content.value else Fallback;
    DoubleStarRedundant(text);
    LinesKeepVisible(DropChar(text, '*'));
  }

  lemma {:induction false} TrimAllTrimmed(xs: seq<string>)
    requires forall k :: 0 <= k < |xs| ==> IsTrimmed(xs[k])
    ensures TrimAll(xs) == xs
  {
    if xs != [] {
      TrimAllTrimmed(xs[1..]);
      TrimOfTrimmed(xs[0]);
    }
  }

  lemma {:induction false} NonEmptyOfNonEmpty(xs: seq<string>)
    requires forall k :: 0 <= k < |xs| ==> xs[k] != []
    ensures NonEmpty(xs) == xs
  {
    if xs != [] {
      NonEmptyOfNonEmpty(xs[1..]);
    }
  }

  /** Cleaning a clean non-empty text gives it back. */
  lemma CleanIdempotent(r: string)
    requires r != "" && IsClean(r)
    ensures CleanGenerated(Some(r)) == r
  {
    DoubleStarRedundant(r);
    var pieces := Split(r, '\n');
    TrimAllTrimmed(pieces);
    NonEmptyOfNonEmpty(pieces);
    JoinSplit(r, '\n');
  }

  lemma FallbackPlain()
    ensures Fallback != "" && '*' !in Fallback && '\n' !in Fallback && IsTrimmed(Fallback)
  {
  }

  lemma FallbackIsClean()
    ensures IsClean(Fallback)
  {
    FallbackPlain();
    SplitNoSeparator(Fallback, '\n');
  }

  /** Without content the fallback message is shown as it is. */
  lemma FallbackShown()
    ensures CleanGenerated(None) == Fallback
  {
    FallbackPlain();
    FallbackIsClean();
    CleanIdempotent(Fallback);
    assert CleanGenerated(Some(Fallback)) == CleanGenerated(None);
  }

  datatype Error = ConfigMissing(provider: string) | ApiError(status: int) | RequestFailed

  datatype Result<T> = Success(value: T) | Failure(error: Error)

  /** `generateText`: a missing key or endpoint fails before any request; a failed request
      fails; a reply gives its cleaned content. */
  function GenerateText(provider: string, config: AIConfig, response: Response): Result<string> {
    if !Ready(config) then Failure(ConfigMissing(provider))
    else match response
      case HttpError(status) => Failure(ApiError(status))
      case Broken => Failure(RequestFailed)
      case Reply(content) => Success(CleanGenerated(content))
  }

  /** Without a key or an endpoint the call fails with the configuration error whatever the
      response; otherwise an error status becomes an API error, an unreadable response a
      failed request, and a reply its cleaned content. A generated text comes only from a
      ready configuration and is always clean. */
  lemma GenerateTextSpec(provider: string, config: AIConfig, response: Response)
    ensures !Ready(config) ==> GenerateText(provider, config, response) == Failure(ConfigMissing(provider))
    ensures Ready(config) && response.Reply? ==>
              GenerateText(provider, config, response) == Success(CleanGenerated(response.content))
    ensures Ready(config) && response.HttpError? ==>
              GenerateText(provider, config, response) == Failure(ApiError(response.status))
    ensures Ready(config) && response.Broken? ==> GenerateText(provider, config, response) == Failure(RequestFailed)
    ensures GenerateText(provider, config, response).Success? ==>
              Ready(config) && response.Reply? && IsClean(GenerateText(provider, config, response).value)
  {
    if response.Reply? {
      CleanGeneratedIsClean(response.content);
    }
  }

  // ---------------------------------------------------------------------------------
  // Unwrapping a generated quiz list

  /** A parsed JSON value, as far as the unwrapping looks at it. */
  datatype Json = JArray(items: seq<Json>) | JObject(fields: map<string, Json>) | JScalar | JNull

  /** A global replacement of `pat` by nothing: occurrences removed from left to right. */
  function RemoveAll(s: string, pat: string): (r: string)
    requires pat != []
    ensures |r| <= |s|
  {
    if s == [] then []
    else if StartsWith(s, pat) then RemoveAll(s[|pat|..], pat)
    else [s[0]] + RemoveAll(s[1..], pat)
  }

  /** Text holding no occurrence of the pattern is left alone. */
  lemma {:induction false} RemoveAllWithout(s: string, pat: string)
    requires pat != [] && !Contains(s, pat)
    ensures RemoveAll(s, pat) == s
  {
    if s != [] {
      RemoveAllWithout(s[1..], pat);
    }
  }

  /** An occurrence at the start is removed whole, and the scan goes on right after it. */
  lemma RemoveAllAtMatch(s: string, pat: string)
    requires pat != [] && StartsWith(s, pat)
    ensures RemoveAll(s, pat) == RemoveAll(s[|pat|..], pat)
  {
  }

  /** Removing the three-backtick fence leaves none: a kept backtick is never followed by two
      more. */
  lemma {:induction false} NoFenceAfterRemoval(s: string)
    ensures !Contains(RemoveAll(s, "```"), "```")
    decreases |s|
  {
    if s == [] {
    } else if StartsWith(s, "```") {
      NoFenceAfterRemoval(s[3..]);
    } else {
      NoFenceAfterRemoval(s[1..]);
      var r := RemoveAll(s, "```");
      assert r[1..] == RemoveAll(s[1..], "```");
      if s[0] == '`' {
        KeptBacktick(s);
      }
    }
  }

  /** After a backtick that does not start a fence, the removal does not bring two more
      backticks next to it. */
  lemma KeptBacktick(s: string)
    requires |s| >= 1 && s[0] == '`' && !StartsWith(s, "```")
    ensures var rest := RemoveAll(s[1..], "```"); |rest| < 2 || rest[0] != '`' || rest[1] != '`'
  {
    var t := s[1..];
    if t == [] {
    } else if t[0] != '`' {
      RemoveAllSkip(t, "```");
    } else if |t| == 1 {
      assert t == "`";
    } else {
      assert t[1] != '`' by {
        assert s[..3] == [s[0], t[0], t[1]];
      }
      assert !StartsWith(t, "```");
      assert RemoveAll(t, "```") == [t[0]] + RemoveAll(t[1..], "```");
      RemoveAllSkip(t[1..], "```");
    }
  }

  /** The replacement makes one pass: removing one occurrence can bring another together,
      and that one stays. */
  lemma RemovalIsOnePass()
    ensures RemoveAll("``" + "```json" + "`json", "```json") == "```json"
  {
    var pat := "```json";
    var s := "``" + pat + "`json";
    assert s[1..] == "`" + pat + "`json";
    assert s[2..] == pat + "`json";
    assert !StartsWith(s, pat) by { assert s[3] != pat[3]; }
    assert !StartsWith(s[1..], pat) by { assert s[1..][3] != pat[3]; }
    assert StartsWith(s[2..], pat) by { assert s[2..][..|pat|] == pat; }
    assert s[2..][|pat|..] == "`json";
    RemoveAllWithout("`json", pat) by {
      NotContainsWithoutHead("json", pat);
      assert "`json"[1..] == "json";
      assert !StartsWith("`json", pat) by { assert "`json"[1] != pat[1]; }
    }
    RemoveAllSkip(s, pat);
    RemoveAllSkip(s[1..], pat);
    assert s[1..][1..] == s[2..];
  }

  /** Where no occurrence starts, the first character is kept. */
  lemma RemoveAllSkip(s: string, pat: string)
    requires pat != [] && s != [] && !StartsWith(s, pat)
    ensures RemoveAll(s, pat) == [s[0]] + RemoveAll(s[1..], pat)
  {
  }

  /** The content with the code fences removed, trimmed. */
  function StripFences(content: string): string {
    Trim(RemoveAll(RemoveAll(content, "```json"), "```"))
  }

  lemma {:induction false} RemoveAllKeeps(body: string, rest: string, pat: string)
    requires pat != [] && pat[0] == '`' && '`' !in body
    ensures RemoveAll(body + rest, pat) == body + RemoveAll(rest, pat)
  {
    if body != [] {
      assert (body + rest)[0] == body[0];
      assert !StartsWith(body + rest, pat);
      assert (body + rest)[1..] == body[1..] + rest;
      RemoveAllKeeps(body[1..], rest, pat);
    } else {
      assert body + rest == rest;
    }
  }

  /** A reply fenced as a JSON code block loses its fences; one without backticks is only
      trimmed. */
  lemma FencesStripped(body: string)
    requires '`' !in body
    ensures StripFences("```json" + body + "```") == Trim(body)
    ensures StripFences(body) == Trim(body)
  {
    var fence := "```";
    var s := "```json" + body + fence;
    assert s == "```json" + (body + fence);
    assert StartsWith(s, "```json");
    assert s[|"```json"|..] == body + fence;
    RemoveAllKeeps(body, fence, "```json");
    assert RemoveAll(fence, "```json") == fence;
    RemoveAllKeeps(body, fence, fence);
    assert RemoveAll(fence, fence) == [];
    assert body + [] == body;
    RemoveAllKeeps(body, [], "```json");
    RemoveAllKeeps(body, [], fence);
  }

  /** No three-backtick fence is left in what is parsed. */
  lemma NoFenceLeft(content: string)
    ensures !Contains(StripFences(content), "```")
  {
    NoFenceAfterRemoval(RemoveAll(content, "```json"));
    if Contains(StripFences(content), "```") {
      TrimContains(RemoveAll(RemoveAll(content, "```json"), "```"), "```");
    }
  }

  predicate QuizzesArray(fields: map<string, Json>) {
    "quizzes" in fields && fields["quizzes"].JArray?
  }

  /** What a parsed reply gives: an array as it is, the `quizzes` array of an object, and
      nothing for anything else. */
  function Unwrap(parsed: Json): seq<Json> {
    match parsed
    case JArray(items) => items
    case JObject(fields) => if QuizzesArray(fields) then fields["quizzes"].items else []
    case _ => []
  }

  /** `generateQuiz`: nothing without a key and endpoint, after a failed request, or when the
      reply does not parse; otherwise the unwrapped reply. A missing content reads as `[]`. */
  function GenerateQuiz(config: AIConfig, response: Response, parse: string -> Option<Json>): seq<Json> {
    if !Ready(config) then []
    else match response
      case HttpError(_) => []
      case Broken => []
      case Reply(content) =>
        var parsed := parse(StripFences(if Truthy(content) then content.value else "[]"));
        if parsed.None? then [] else Unwrap(parsed.value)
  }

  /** No key or no endpoint: no quiz, whatever the reply. */
  lemma QuizNeedsConfig(config: AIConfig, response: Response, parse: string -> Option<Json>)
    requires !Ready(config)
    ensures GenerateQuiz(config, response, parse) == []
  {
  }

  /** With a configuration and some content, the quiz list is what the content, without its
      fences, parses to, unwrapped: an array as it is, the `quizzes` array of an object, and
      nothing for anything else or for content that does not parse. */
  lemma QuizOfReply(config: AIConfig, content: string, parse: string -> Option<Json>)
    requires Ready(config) && content != ""
    ensures var r := GenerateQuiz(config, Reply(Some(content)), parse);
      var parsed := parse(StripFences(content));
      (parsed.None? ==> r == [])
      && (parsed.Some? && parsed.value.JArray? ==> r == parsed.value.items)
      && (parsed.Some? && parsed.value.JObject? && QuizzesArray(parsed.value.fields) ==>
            r == parsed.value.fields["quizzes"].items)
      && (parsed.Some? && parsed.value.JObject? && !QuizzesArray(parsed.value.fields) ==> r == [])
      && (parsed.Some? && (parsed.value.JScalar? || parsed.value.JNull?) ==> r == [])
  {
  }

  /** A reply without content is read as an empty array. */
  lemma QuizOfEmptyReply(config: AIConfig, parse: string -> Option<Json>)
    requires Ready(config)
    ensures GenerateQuiz(config, Reply(None), parse) == GenerateQuiz(config, Reply(Some("[]")), parse)
    ensures GenerateQuiz(config, Reply(Some("")), parse) == GenerateQuiz(config, Reply(Some("[]")), parse)
  {
  }
}
