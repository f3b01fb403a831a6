# Parent-AI Tutor request handling, modelled in Dafny

The Parent-AI Tutor is a small Flask backend. A parent posts a question and
their child's age to `POST /chat`. The handler validates the two fields,
builds a system prompt for that age and sends a two-turn exchange (system
prompt, then the question) to a chat-completion service. It answers with the
trimmed reply, or with one of two fixed fallback sentences when the service
is not configured or fails.

This project models the two pieces of `app.py` that have exact behaviour:

- `chat()` (module `Frontend`). It reads the JSON body (`get_json(silent=True) or {}`)
  and strips the message. It then checks a non-blank message, an age that `int()`
  converts, and an age in [1, 18], in that order. Each failure gets its own fixed error
  text and status 400. A valid request gets the adapter's text with status 200.
- `get_ai_response()` (module `Adapter`). With no API key (unset or empty) it returns
  the fixed "not configured" sentence and sends nothing. Otherwise it formats the age
  into the system prompt, sends one request, and returns the stripped reply. On any
  exception, including a reply whose content is null, it returns the fixed
  "currently unavailable" sentence.

Module `Text` holds the Python string operations these rely on. `str.strip()` is
modelled over the exact set of characters for which `str.isspace()` holds.
`"{}".format(age)` is the decimal rendering of an integer. `int()` on a string is
restricted to an optional sign and ASCII digits. The whitespace it skips around them is
its own set: ASCII tab to carriage return and space, plus every non-ASCII `str.isspace()`
character. U+001C to U+001F, which `str.strip()` removes, are not skipped.

Modelling choices:

- The API key, read once at start-up, is the parameter `key: Option<string>`.
- The completion service is the parameter `complete: Call -> Outcome`. This total
  function maps the request the adapter would send to the reply content or a raised
  exception.
- "No call is made" means the result does not depend on `complete`. "Exactly one call"
  means the result depends only on `complete(UpstreamCall(message, age))`.
- The request body is `NoJson` (absent, not JSON or malformed) or a decoded JSON value.
  Falsy JSON values become the empty object, as `or {}` makes them.
- A JSON object is a `map`. The `age` field goes through Python's `int()`:
  `None`, lists and objects raise `TypeError`, booleans are 0 and 1, and strings are
  parsed.

Two behaviours of the code a caller may not expect:

- The age `true` is accepted as 1, because Python's `int(True)` is 1.
- A message that is present but not a string, or a body that is truthy JSON but not an
  object, makes the handler raise. The result is a 500 error, not a validation error.
  These bodies are excluded by the precondition `Handled`.

## Model

| member | source | states |
|---|---|---|
| Text.Strip | app.py:111 | the stripped message has no `str.isspace()` character at either end and is no longer than the input |
| Text.StripIsSlice | app.py:111 | stripping only removes: the result is a slice of the input and everything cut off on both sides is whitespace |
| Text.StripOfPadded | app.py:91 | whitespace around a string with no whitespace at its ends is exactly what stripping removes (the converse of `Strip`'s contract) |
| Text.StripIdempotent | app.py:111 | stripping an already stripped message changes nothing |
| Text.StripEmptyIffBlank | app.py:111-116 | a message strips to empty exactly when it is all whitespace, absent (`""`) included |
| Text.IntToDecimal | app.py:62-67 | `str(age)` is a `-` exactly for a negative age, followed by one or more digits |
| Text.NatToDecimal | app.py:62-67 | the age formatted into the prompt is at least one ASCII digit, with no leading zero: an age of 0 is exactly `"0"` |
| Text.DecimalDigitsRoundTrip | app.py:62-67 | reading the decimal digits of a natural number gives back that number |
| Text.StripOfDecimal | app.py:62-67 | a formatted integer has no surrounding whitespace |
| Text.StripIntSpace | app.py:118 | the text `int()` reads has none of `int()`'s whitespace at either end and is no longer than the input |
| Text.ParseInt | app.py:118 | `int()` on a string; its properties are stated by Text.ParseIntIgnoresPadding and Text.ParseIntOfDecimal |
| Text.ParseIntIgnoresPadding | app.py:118 | surrounding whitespace of `int()`'s own kind does not change what a string converts to |
| Text.NegativeDecimal | app.py:118 | `int()` reads `"-"` followed by the digits of n > 0 as -n |
| Text.NonNegativeDecimal | app.py:118 | `int()` reads the digits of n as n |
| Text.ParseIntOfDecimal | app.py:118 | for every integer, `int(str(i)) == i`: formatting and conversion are inverse |
| Adapter.GetAiResponse | app.py:49-94 | the adapter is total and its text never has whitespace at either end |
| Adapter.Configured | app.py:55 | both an unset and an empty key count as missing; its effect is stated by Adapter.UnconfiguredMakesNoCall and Adapter.ConfiguredMakesOneCall |
| Adapter.SystemPrompt | app.py:62-67 | the prompt for an age; stated by Adapter.PromptCarriesAge and Adapter.PromptDistinguishesAges |
| Adapter.UpstreamCall | app.py:69-78 | the request sent upstream; stated by Adapter.RequestShape |
| Adapter.FallbacksStripped | app.py:56-59 | neither fixed fallback sentence starts or ends with whitespace |
| Adapter.PromptCarriesAge | app.py:62-67 | the system prompt is the fixed head, then the age in decimal, then the fixed tail, and the age reads back from the prompt |
| Adapter.RequestShape | app.py:69-78 | the request names `gpt-3.5-turbo` and has exactly two turns: a system turn holding the system prompt for the age, from which the age reads back, then a user turn holding the message verbatim |
| Adapter.PromptDistinguishesAges | app.py:62-67 | different ages give different system prompts |
| Adapter.UnconfiguredMakesNoCall | app.py:55-59 | with the key unset or empty the answer is the fixed "not configured" sentence, whatever the service would answer |
| Adapter.ConfiguredMakesOneCall | app.py:74-90 | with a key, the answer depends on the service only through its answer to the one request built from the message and age |
| Adapter.ConfiguredOutcomes | app.py:91-94 | with a key, a reply is returned stripped, and an exception or a null content gives the fixed "unavailable" sentence |
| Adapter.ResponseIsKnownText | app.py:49-94 | the answer is the "not configured" sentence, the "unavailable" sentence, or the stripped content of the reply to the request sent |
| Frontend.Data | app.py:110 | `get_json(silent=True) or {}`: a truthy JSON body is itself the data, and otherwise the data is the empty object |
| Frontend.Handled | app.py:110-111 | the bodies the handler answers without raising; stated by Frontend.HandledBodies |
| Frontend.HandledBodies | app.py:110-111 | no JSON and falsy JSON are always answered; a truthy body is answered exactly when it is an object whose message, if present, is a string |
| Frontend.RawMessage | app.py:111 | `data.get("message", "")`; stated by Frontend.Request and Frontend.NoMessageInBody |
| Frontend.RawAge | app.py:112 | `data.get("age")`, an absent age being `None`; stated by Frontend.Request (a present age) and Frontend.ExampleAgeAbsent (an absent one) |
| Frontend.ToInt | app.py:118 | `int()` on a JSON value: only booleans, integers and strings convert; an integer converts to itself, `true` to 1 and `false` to 0 |
| Frontend.Validate | app.py:110-122 | a rejection carries one of the three fixed errors; an acceptance carries a non-empty stripped message and an age in [1, 18] |
| Frontend.Decide | app.py:115-122 | after stripping, an acceptance passes the message on unchanged with an age in [1, 18]; a rejection carries one of the three fixed errors |
| Frontend.ValidateDecides | app.py:115-122 | the full decision table, each case an if-and-only-if: blank message gives the message error whatever the age; otherwise a non-converting age gives the invalid-age error; otherwise an age outside [1, 18] gives the range error |
| Frontend.ValidateAccepts | app.py:111-122 | a request is accepted with (m, a) exactly when the message is not blank, m is the stripped message, `int(age)` is a, and 1 <= a <= 18 |
| Frontend.NoMessageInBody | app.py:110-116 | a missing or malformed body, a falsy JSON body, and an object without a message all get "No message provided." |
| Frontend.AgeBoundaries | app.py:119-120 | ages 1 and 18 are accepted; ages 0 and 19 get the range error |
| Frontend.DecimalStringAge | app.py:118 | an age sent as its decimal string converts to the same integer as the number itself |
| Frontend.Chat | app.py:101-126 | the status is 400 exactly when the answer is an error, and otherwise 200 |
| Frontend.ChatRejects | app.py:115-122 | a rejected request is answered 400 with the validator's error, whatever the service would answer |
| Frontend.ChatAccepts | app.py:111-126 | a request with a non-blank message and an age that `int()` converts into [1, 18] is answered 200 with the adapter's text for the stripped message and that integer |
| Frontend.ChatEndToEnd | app.py:101-126 | every handled request gets 400 with one of three known errors, or 200 whose text is a fallback sentence or the stripped reply to the one request built from the validated message and age |
| Frontend.ExampleAnswered | app.py:124-126 | `{"message": "What is AI?", "age": 7}` with a key and the reply "AI is like a smart helper." answers 200 with that reply |
| Frontend.ExampleEmptyMessage | app.py:115-116 | `{"message": "", "age": 7}` answers 400 "No message provided." |
| Frontend.ExampleAgeTooHigh | app.py:119-120 | `{"message": "Explain ML", "age": 25}` answers 400 with the range error |
| Frontend.ExampleAgesInvalid | app.py:117-122 | the ages `"abc"`, `"3.5"` and null get "Invalid age provided." |
| Frontend.ExampleAgePaddedString | app.py:118 | the age `" 7 "` is accepted as 7 |
| Frontend.ExampleAgeUnitSeparator | app.py:111-122 | `str.strip()` removes U+001F from a message, but the age `"\u001f7"` gets "Invalid age provided." because `int()` does not skip that character |
| Frontend.ExampleAgeAbsent | app.py:112-122 | an object with a message but no `age` key gets "Invalid age provided." |
| Frontend.ExampleAgeFalse | app.py:118-120 | the age `false` converts to 0 and gets the range error, not the invalid-age error |
| Frontend.ExampleAgeTrue | app.py:118 | the age `true` is accepted as 1 |

## Left out

- Flask routing, the `GET /` page (app.py:96-99) and `app.run` with its `PORT` parsing (app.py:128-130) are framework and I/O code.
- `load_dotenv`, `os.getenv` and the logging set-up and calls (app.py:26-33, 42-44, 93) are environment and I/O. The key is a parameter, and the error log line has no effect on the answer.
- Building the OpenAI client and the two SDK call paths (app.py:34-41, 75-90) are a foreign network library. Both send the same request and read the same content field, so they are one abstract `complete` call.
- The sampling parameters `temperature=0.7` and `max_tokens=512` (app.py:79-80) are passed through to the service unread, so `Call` does not carry them.
- `jsonify` is not modelled: a response is a `Reply` value with a status, not serialized JSON.
- Frontend.ToInt: JSON numbers with a fraction or exponent are not modelled. Python's `int()` truncates finite ones (`int(3.7) == 3`). An infinite one (`1e999`, or `Infinity`, which Python's JSON decoder accepts) makes `int()` raise `OverflowError`, which the `except` at app.py:121 does not catch, so Flask answers 500 instead of 400 or 200. `NaN` makes `int()` raise `ValueError`, so it gets 400 "Invalid age provided.".
- Text.ParseInt: underscores between digits (`"1_0"`) and non-ASCII decimal digits are not accepted, though Python's `int()` accepts both. The digit-count limit of CPython 3.11 and later (4300 digits by default, leading zeros included, adjustable at run time) is not modelled: such an age string gets "Invalid age provided." there, while the model converts it (4300 zeros followed by `7` is accepted as 7).
- A body that is truthy JSON but not an object, and a message that is present but not a string, make the handler raise (a 500 from Flask). The precondition `Handled` excludes them.
- Repeated identical requests making independent upstream calls: the model is a pure function of the key, the body and the service. A service that answers differently each time is a different `complete` for each request.
