/**
  The `POST /chat` handler, `chat()` in app.py: read the JSON body, validate
  the message and the age in that order, and either answer 400 with one of
  three fixed errors or hand the trimmed message and the integer age to the
  completion adapter and answer 200 with its text.
*/
module Frontend {
  import opened Wrappers
  import Text
  import Adapter

  /** A decoded JSON value (JSON numbers with a fraction or exponent are not modelled). */
  datatype Json =
    | JNull
    | JBool(b: bool)
    | JInt(i: int)
    | JString(s: string)
    | JArray(items: seq<Json>)
    | JObject(fields: map<string, Json>)

  /** The request body as `request.get_json(silent=True)` sees it: `NoJson` for an absent, non-JSON or malformed body. */
  datatype Body = NoJson | Parsed(value: Json)

  /** Python truthiness of a decoded JSON value. */
  predicate Truthy(v: Json) {
    match v
    case JNull => false
    case JBool(b) => b
    case JInt(i) => i != 0
    case JString(s) => s != ""
    case JArray(items) => items != []
    case JObject(fields) => fields != map[]
  }

  /** `request.get_json(silent=True) or {}`: no JSON, and any falsy JSON value, become the empty object. */
  function Data(body: Body): (d: Json)
    ensures body.Parsed? && Truthy(body.value) ==> d == body.value
    ensures Truthy(d) ==> body == Parsed(d)
    ensures !Truthy(d) ==> d == JObject(map[])
  {
    if body.Parsed? && Truthy(body.value) then body.value else JObject(map[])
  }

  /**
    The bodies the handler answers instead of failing with an uncaught
    exception: the data is an object (`.get` exists) and its message, when
    present, is a string (`.strip()` exists).
  */
  predicate Handled(body: Body) {
    var d := Data(body);
    d.JObject? && ("message" in d.fields ==> d.fields["message"].JString?)
  }

  /** `data.get("message", "")`, before stripping. */
  function RawMessage(body: Body): string
    requires Handled(body)
  {
    var d := Data(body);
    if "message" in d.fields then d.fields["message"].s else ""
  }

  /** `data.get("age")`: an absent key and an explicit `null` are both Python's `None`. */
  function RawAge(body: Body): Json
    requires Handled(body)
  {
    var d := Data(body);
    if "age" in d.fields then d.fields["age"] else JNull
  }

  /**
    Python's `int(x)` on a decoded JSON value, `None` standing for the
    `TypeError` or `ValueError` it raises: `None`, lists and dicts are
    refused, booleans are 0 and 1, integers are themselves, and strings go
    through the decimal grammar.
  */
  function ToInt(v: Json): (r: Option<int>)
    ensures r.Some? ==> v.JBool? || v.JInt? || v.JString?
    ensures v.JInt? ==> r == Some(v.i)
    ensures v.JBool? ==> r == Some(if v.b then 1 else 0)
  {
    match v
    case JNull => None
    case JBool(b) => Some(if b then 1 else 0)
    case JInt(i) => Some(i)
    case JString(s) => Text.ParseInt(s)
    case JArray(_) => None
    case JObject(_) => None
  }

  const NoMessage := "No message provided."
  const InvalidAge := "Invalid age provided."
  const AgeOutOfRange := "Please enter an age between 1 and 18."

  const MinAge := 1
  const MaxAge := 18

  const BadRequest := 400
  const Ok := 200

  /** The validator's verdict: an error to answer with, or the request to pass on. */
  datatype Validation = Rejected(error: string) | Accepted(message: string, age: int)

  /**
    The checks of `chat()`, in order: a non-blank message, then an age that
    converts to an integer, then an age in [MinAge, MaxAge]. What is accepted
    is a non-empty message with no surrounding whitespace and an age in range.
  */
  function Validate(body: Body): (v: Validation)
    requires Handled(body)
    ensures v.Rejected? ==> v.error == NoMessage || v.error == InvalidAge || v.error == AgeOutOfRange
    ensures v.Accepted? ==> v.message != [] && Text.IsStripped(v.message) && MinAge <= v.age <= MaxAge
  {
    Decide(Text.Strip(RawMessage(body)), RawAge(body))
  }

  /** The checks after stripping: `message` is already stripped, `age` is still the raw JSON value. */
  function Decide(message: string, age: Json): (v: Validation)
    ensures v.Accepted? ==> v.message == message && MinAge <= v.age <= MaxAge
    ensures v.Rejected? ==> v.error == NoMessage || v.error == InvalidAge || v.error == AgeOutOfRange
  {
    if message == [] then
      Rejected(NoMessage)
    else
      match ToInt(age)
      case None => Rejected(InvalidAge)
      case Some(n) =>
        if n < MinAge || n > MaxAge then Rejected(AgeOutOfRange) else Accepted(message, n)
  }

  /** The JSON object of the answer: `{"error": ...}` or `{"response": ...}`. */
  datatype Reply = Error(error: string) | Answer(response: string)

  datatype Response = Response(reply: Reply, status: int)

  /** `chat()`: validation errors answer 400; everything else is the adapter's text with status 200. */
  function Chat(key: Option<string>, body: Body, complete: Adapter.Call -> Adapter.Outcome): (r: Response)
    requires Handled(body)
    ensures r.status == BadRequest <==> r.reply.Error?
    ensures r.status == BadRequest || r.status == Ok
  {
    match Validate(body)
    case Rejected(e) => Response(Error(e), BadRequest)
    case Accepted(message, age) => Response(Answer(Adapter.GetAiResponse(key, message, age, complete)), Ok)
  }

  /**
    The full decision table of the validator: the message is checked first,
    so a blank message is reported whatever the age, and each age error is
    reported exactly when the message is usable.
  */
  lemma ValidateDecides(body: Body)
    requires Handled(body)
    ensures var raw := RawMessage(body);
      var age := ToInt(RawAge(body));
      && (Validate(body) == Rejected(NoMessage) <==> Text.AllSpace(raw))
      && (Validate(body) == Rejected(InvalidAge) <==> !Text.AllSpace(raw) && age.None?)
      && (Validate(body) == Rejected(AgeOutOfRange)
          <==> !Text.AllSpace(raw) && age.Some? && (age.value < MinAge || age.value > MaxAge))
  {
    Text.StripEmptyIffBlank(RawMessage(body));
  }

  /** A request is accepted exactly when its message is not blank and its age converts into [MinAge, MaxAge]; the stripped message and the integer are passed on. */
  lemma ValidateAccepts(body: Body, message: string, age: int)
    requires Handled(body)
    ensures Validate(body) == Accepted(message, age)
      <==> && !Text.AllSpace(RawMessage(body))
           && message == Text.Strip(RawMessage(body))
           && ToInt(RawAge(body)) == Some(age)
           && MinAge <= age <= MaxAge
  {
    Text.StripEmptyIffBlank(RawMessage(body));
  }

  /** A missing or malformed body, a falsy JSON value and an object without a message all get the message error. */
  lemma NoMessageInBody(body: Body)
    requires body.NoJson? || !Truthy(body.value) || (body.value.JObject? && "message" !in body.value.fields)
    ensures Handled(body) && Validate(body) == Rejected(NoMessage)
  {
    assert Text.AllSpace(RawMessage(body));
    ValidateDecides(body);
  }

  /** A JSON object with the given message and age, as a browser would post it. */
  function Request(message: string, age: Json): (body: Body)
    ensures Handled(body) && RawMessage(body) == message && RawAge(body) == age
  {
    var fields := map["message" := JString(message), "age" := age];
    assert Truthy(JObject(fields)) by { assert "message" in fields; }
    Parsed(JObject(fields))
  }

  /** Ages 1 and 18 are accepted; 0 and 19 are the nearest ages refused. */
  lemma AgeBoundaries(message: string)
    requires !Text.AllSpace(message)
    ensures Validate(Request(message, JInt(MinAge))) == Accepted(Text.Strip(message), MinAge)
    ensures Validate(Request(message, JInt(MaxAge))) == Accepted(Text.Strip(message), MaxAge)
    ensures Validate(Request(message, JInt(MinAge - 1))) == Rejected(AgeOutOfRange)
    ensures Validate(Request(message, JInt(MaxAge + 1))) == Rejected(AgeOutOfRange)
  {
    Text.StripEmptyIffBlank(message);
  }

  /** An age sent as its decimal string is converted to the same integer as the number itself. */
  lemma DecimalStringAge(n: int)
    ensures ToInt(JString(Text.IntToDecimal(n))) == ToInt(JInt(n)) == Some(n)
  {
    Text.ParseIntOfDecimal(n);
  }

  /** A rejected request is answered 400 with the validator's error, and the service plays no part in it. */
  lemma ChatRejects(key: Option<string>, body: Body, c1: Adapter.Call -> Adapter.Outcome, c2: Adapter.Call -> Adapter.Outcome)
    requires Handled(body) && Validate(body).Rejected?
    ensures Chat(key, body, c1) == Chat(key, body, c2) == Response(Error(Validate(body).error), BadRequest)
  {
  }

  /**
    A request whose message is not blank and whose age converts into
    [MinAge, MaxAge] is answered 200 with the adapter's text for the stripped
    message and the converted age.
  */
  lemma ChatAccepts(key: Option<string>, body: Body, a: int, complete: Adapter.Call -> Adapter.Outcome)
    requires Handled(body) && !Text.AllSpace(RawMessage(body))
    requires ToInt(RawAge(body)) == Some(a) && MinAge <= a <= MaxAge
    ensures Chat(key, body, complete)
      == Response(Answer(Adapter.GetAiResponse(key, Text.Strip(RawMessage(body)), a, complete)), Ok)
  {
    ValidateAccepts(body, Text.Strip(RawMessage(body)), a);
  }

  /** The bodies the handler answers: no JSON and falsy JSON always; a truthy body only when it is an object whose message, if any, is a string. */
  lemma HandledBodies(body: Body)
    ensures body.NoJson? || !Truthy(body.value) ==> Handled(body)
    ensures body.Parsed? && Truthy(body.value) && !body.value.JObject? ==> !Handled(body)
    ensures body.Parsed? && Truthy(body.value) && body.value.JObject? ==>
      (Handled(body) <==> ("message" in body.value.fields ==> body.value.fields["message"].JString?))
  {
  }

  /**
    End to end: every handled request gets either 400 with one of the three
    known errors, or 200 whose text is one of the two fallback sentences or
    the stripped reply to the single request built from the validated
    message and age.
  */
  lemma ChatEndToEnd(key: Option<string>, body: Body, complete: Adapter.Call -> Adapter.Outcome)
    requires Handled(body)
    ensures var r := Chat(key, body, complete);
      || (r.status == BadRequest && r.reply.Error?
          && (r.reply.error == NoMessage || r.reply.error == InvalidAge || r.reply.error == AgeOutOfRange))
      || (r.status == Ok && r.reply.Answer? && Validate(body).Accepted?
          && var v := Validate(body);
             var o := complete(Adapter.UpstreamCall(v.message, v.age));
             || r.reply.response == Adapter.NotConfigured
             || r.reply.response == Adapter.Unavailable
             || (o.Replied? && o.content.Some? && r.reply.response == Text.Strip(o.content.value)))
  {
    var v := Validate(body);
    var r := Chat(key, body, complete);
    if v.Accepted? {
      assert r == Response(Answer(Adapter.GetAiResponse(key, v.message, v.age, complete)), Ok);
      Adapter.ResponseIsKnownText(key, v.message, v.age, complete);
    } else {
      assert r == Response(Error(v.error), BadRequest);
    }
  }

  /** `{"message": "What is AI?", "age": 7}` with a key and the reply "AI is like a smart helper." */
  lemma ExampleAnswered()
    ensures Chat(Some("sk-test"), Request("What is AI?", JInt(7)),
                 _ => Adapter.Replied(Some("AI is like a smart helper.")))
         == Response(Answer("AI is like a smart helper."), Ok)
  {
    var m := "What is AI?";
    var a := "AI is like a smart helper.";
    assert [] + m + [] == m;
    assert [] + a + [] == a;
    Text.StripOfPadded([], m, []);
    Text.StripOfPadded([], a, []);
  }

  /** `{"message": "", "age": 7}` is refused for its message. */
  lemma ExampleEmptyMessage(key: Option<string>, complete: Adapter.Call -> Adapter.Outcome)
    ensures Chat(key, Request("", JInt(7)), complete) == Response(Error(NoMessage), BadRequest)
  {
    ValidateDecides(Request("", JInt(7)));
  }

  /** `{"message": "Explain ML", "age": 25}` is refused for its age. */
  lemma ExampleAgeTooHigh(key: Option<string>, complete: Adapter.Call -> Adapter.Outcome)
    ensures Chat(key, Request("Explain ML", JInt(25)), complete) == Response(Error(AgeOutOfRange), BadRequest)
  {
    var body := Request("Explain ML", JInt(25));
    assert !Text.IsSpace("Explain ML"[0]);
    ValidateDecides(body);
  }

  /** `"abc"` and `"3.5"` are not integers to `int()`, and neither is `None` (an explicit null age). */
  lemma ExampleAgesInvalid(message: string)
    requires !Text.AllSpace(message)
    ensures Validate(Request(message, JString("abc"))) == Rejected(InvalidAge)
    ensures Validate(Request(message, JString("3.5"))) == Rejected(InvalidAge)
    ensures Validate(Request(message, JNull)) == Rejected(InvalidAge)
  {
    assert Text.ParseInt("3.5") == None by {
      assert !Text.IsIntSpace("3.5"[0]) && !Text.IsIntSpace("3.5"[2]);
      assert !Text.IsDigit("3.5"[1]);
    }
    ValidateDecides(Request(message, JString("3.5")));
    assert Text.ParseInt("abc") == None by {
      assert !Text.IsIntSpace("abc"[0]) && !Text.IsIntSpace("abc"[2]);
      assert !Text.IsDigit("abc"[0]);
    }
    ValidateDecides(Request(message, JString("abc")));
    ValidateDecides(Request(message, JNull));
  }

  /** `int(" 7 ")` is 7: the surrounding whitespace of an age string is ignored. */
  lemma ExampleAgePaddedString(message: string)
    requires !Text.AllSpace(message)
    ensures Validate(Request(message, JString(" 7 "))) == Accepted(Text.Strip(message), 7)
  {
    assert Text.ParseInt(" 7 ") == Some(7) by {
      assert " 7 " == " " + "7" + " ";
      Text.ParseIntIgnoresPadding(" ", "7", " ");
    }
    ValidateAccepts(Request(message, JString(" 7 ")), Text.Strip(message), 7);
  }

  /**
    `str.strip()` removes U+001F from a message, but `int()` does not skip it
    around an age: `int("\x1f7")` raises, so the age is invalid.
  */
  lemma ExampleAgeUnitSeparator(message: string)
    requires !Text.AllSpace(message)
    ensures Text.Strip("\U{1F}7") == "7"
    ensures Validate(Request(message, JString("\U{1F}7"))) == Rejected(InvalidAge)
  {
    assert "\U{1F}7" == "\U{1F}" + "7" + "";
    Text.StripOfPadded("\U{1F}", "7", "");
    assert Text.ParseInt("\U{1F}7") == None by {
      assert !Text.IsIntSpace("\U{1F}7"[0]) && !Text.IsIntSpace("\U{1F}7"[1]);
      assert !Text.IsDigit("\U{1F}7"[0]);
    }
    ValidateDecides(Request(message, JString("\U{1F}7")));
  }

  /** An object with no `age` key reads the age as `None`, which `int()` refuses. */
  lemma ExampleAgeAbsent(message: string)
    requires !Text.AllSpace(message)
    ensures Validate(Parsed(JObject(map["message" := JString(message)]))) == Rejected(InvalidAge)
  {
    var body := Parsed(JObject(map["message" := JString(message)]));
    assert Truthy(body.value) by { assert "message" in body.value.fields; }
    ValidateDecides(body);
  }

  /** `false` converts to 0, so it gets the range error rather than the invalid-age error. */
  lemma ExampleAgeFalse(message: string)
    requires !Text.AllSpace(message)
    ensures Validate(Request(message, JBool(false))) == Rejected(AgeOutOfRange)
  {
    ValidateDecides(Request(message, JBool(false)));
  }

  /** `true` is accepted as age 1, since Python's `int(True)` is 1. */
  lemma ExampleAgeTrue(message: string)
    requires !Text.AllSpace(message)
    ensures Validate(Request(message, JBool(true))) == Accepted(Text.Strip(message), 1)
  {
    ValidateAccepts(Request(message, JBool(true)), Text.Strip(message), 1);
  }
}
