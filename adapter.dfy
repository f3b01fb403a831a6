/**
  The completion adapter, `get_ai_response(message, age)` in app.py.

  The API key is read once at start-up; here it is the parameter `key`
  (`None` when the variable is unset). The chat-completion service is a
  total function `complete` from the request the adapter would send to the
  outcome of sending it: the reply's content (which the SDK may leave null),
  or a raised exception. The old and new SDK call paths send the same
  request and read the same field, so they are one call here.
*/
module Adapter {
  import opened Wrappers
  import Text

  datatype Role = System | User

  /** One entry of the `messages` list: `{"role": ..., "content": ...}`. */
  datatype Turn = Turn(role: Role, content: string)

  /** What is sent upstream; the sampling parameters (temperature, max tokens) are passed through unread. */
  datatype Call = Call(model: string, messages: seq<Turn>)

  /** What the upstream call yields: the reply's `content` field, or an exception. */
  datatype Outcome = Replied(content: Option<string>) | Raised

  const ModelName := "gpt-3.5-turbo"

  /** Both fallback sentences open with this apology. */
  const Sorry := "Sorry, "

  const NotConfigured: string :=
    Sorry + "I can\U{2019}t generate an answer right now because the AI service "
    + "is not configured. Please check your API key."

  const Unavailable: string := Sorry + "the AI service is currently unavailable. Please try again later."

  /** The system prompt around the `{}` placeholder. */
  const PromptHead :=
    "You are an AI tutor helping parents explain artificial intelligence and technology "
    + "concepts to their child. The child is "
  const PromptTail :=
    " years old. "
    + "Speak directly to the parent and provide simple, age\U{2011}appropriate explanations, "
    + "analogies and suggestions. Avoid jargon."

  /** `if not OPENAI_API_KEY`: both an unset and an empty key count as missing. */
  predicate Configured(key: Option<string>) {
    key.Some? && key.value != ""
  }

  /** The system prompt with the age formatted into it. */
  function SystemPrompt(age: int): string {
    PromptHead + Text.IntToDecimal(age) + PromptTail
  }

  /** The request the adapter sends for this message and age. */
  function UpstreamCall(message: string, age: int): Call {
    Call(ModelName, [Turn(System, SystemPrompt(age)), Turn(User, message)])
  }

  /** The adapter: never fails, and answers with the trimmed reply or one of two fixed sentences. */
  function GetAiResponse(key: Option<string>, message: string, age: int, complete: Call -> Outcome): (text: string)
    ensures Text.IsStripped(text)
  {
    FallbacksStripped();
    if !Configured(key) then
      NotConfigured
    else
      match complete(UpstreamCall(message, age))
      case Replied(Some(content)) => Text.Strip(content)
      case Replied(None) => Unavailable  // `None.strip()` raises inside the try
      case Raised => Unavailable
  }

  /** Neither fixed sentence has whitespace at its ends, so the adapter's text is always stripped. */
  lemma FallbacksStripped()
    ensures Text.IsStripped(NotConfigured) && Text.IsStripped(Unavailable)
  {
    assert NotConfigured[0] == Sorry[0] == 'S' && NotConfigured[|NotConfigured| - 1] == '.';
    assert Unavailable[0] == Sorry[0] && Unavailable[|Unavailable| - 1] == '.';
  }

  /** The age can be read back from the system prompt: it sits, in decimal, between the fixed head and tail. */
  lemma PromptCarriesAge(age: int)
    ensures var p := SystemPrompt(age);
      && |p| >= |PromptHead| + |PromptTail|
      && p[..|PromptHead|] == PromptHead
      && p[|p| - |PromptTail|..] == PromptTail
      && Text.ParseInt(p[|PromptHead|..|p| - |PromptTail|]) == Some(age)
  {
    var d := Text.IntToDecimal(age);
    var p := SystemPrompt(age);
    assert p[..|PromptHead|] == PromptHead;
    assert p[|p| - |PromptTail|..] == PromptTail;
    assert p[|PromptHead|..|p| - |PromptTail|] == d;
    Text.ParseIntOfDecimal(age);
  }

  /** The request sent upstream has exactly two turns: the system prompt for this age, then the message verbatim. */
  lemma RequestShape(message: string, age: int)
    ensures var c := UpstreamCall(message, age);
      && c.model == ModelName
      && |c.messages| == 2
      && c.messages[0].role == System
      && c.messages[0].content == SystemPrompt(age)
      && c.messages[0].content[..|PromptHead|] == PromptHead
      && Text.ParseInt(c.messages[0].content[|PromptHead|..|c.messages[0].content| - |PromptTail|]) == Some(age)
      && c.messages[1] == Turn(User, message)
  {
    PromptCarriesAge(age);
  }

  /** Different ages give different requests: the prompt really depends on the age. */
  lemma PromptDistinguishesAges(a: int, b: int)
    requires a != b
    ensures SystemPrompt(a) != SystemPrompt(b)
  {
    PromptCarriesAge(a);
    PromptCarriesAge(b);
  }

  /**
    Without a key the fixed "not configured" sentence comes back whatever the
    service would have answered: no call is made.
  */
  lemma UnconfiguredMakesNoCall(key: Option<string>, message: string, age: int, c1: Call -> Outcome, c2: Call -> Outcome)
    requires !Configured(key)
    ensures GetAiResponse(key, message, age, c1) == NotConfigured
    ensures GetAiResponse(key, message, age, c1) == GetAiResponse(key, message, age, c2)
  {
  }

  /**
    With a key the answer depends on the service only through its answer to
    the one request `UpstreamCall(message, age)`.
  */
  lemma ConfiguredMakesOneCall(key: Option<string>, message: string, age: int, c1: Call -> Outcome, c2: Call -> Outcome)
    requires Configured(key)
    requires c1(UpstreamCall(message, age)) == c2(UpstreamCall(message, age))
    ensures GetAiResponse(key, message, age, c1) == GetAiResponse(key, message, age, c2)
  {
  }

  /** With a key, a reply is returned stripped, and any failure becomes the fixed "unavailable" sentence. */
  lemma ConfiguredOutcomes(key: Option<string>, message: string, age: int, complete: Call -> Outcome)
    requires Configured(key)
    ensures var o := complete(UpstreamCall(message, age));
      && (o.Replied? && o.content.Some? ==> GetAiResponse(key, message, age, complete) == Text.Strip(o.content.value))
      && (o.Raised? || o == Replied(None) ==> GetAiResponse(key, message, age, complete) == Unavailable)
  {
  }

  /**
    The adapter is total and its text is one of: the fixed "not configured"
    sentence, the fixed "unavailable" sentence, or the stripped content of the
    reply to the one request it sends.
  */
  lemma ResponseIsKnownText(key: Option<string>, message: string, age: int, complete: Call -> Outcome)
    ensures var text := GetAiResponse(key, message, age, complete);
      var o := complete(UpstreamCall(message, age));
      || text == NotConfigured
      || text == Unavailable
      || (Configured(key) && o.Replied? && o.content.Some? && text == Text.Strip(o.content.value))
  {
  }
}
