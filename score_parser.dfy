/**
 * `analyze_reviews` from the completion text onward: strip the text, decode
 * it as JSON, fall back to the span the regex `\{.*\}` finds when decoding
 * raises, check the three score keys, and rewrap every failure as an API
 * error. `json.loads`, `json.dumps` and the chat-completion call are
 * parameters: the model never looks inside them.
 */
module ScoreParser {
  import opened Wrappers
  import opened Strings
  import opened JsonValue

  const RequiredKeys: seq<string> := ["positive", "negative", "neutral"]

  const MissingKeysError: string := "Missing required keys in the response"
  const ParseFailurePrefix: string := "Failed to parse Groq API response: "
  const ApiErrorPrefix: string := "Error in Groq API call: "

  /** `json.loads`: a value, or `None` where it raises `JSONDecodeError`. */
  type Loads = string -> Option<Json>

  // ---------------------------------------------------------------------
  // The regex `\{.*\}` under re.DOTALL
  // ---------------------------------------------------------------------

  /** `\{.*\}` with DOTALL matches exactly the spans `s[i..j + 1]` that open
      with `{` and close with a later `}`. */
  ghost predicate RegexMatch(s: string, i: int, j: int) {
    0 <= i < j < |s| && s[i] == '{' && s[j] == '}'
  }

  /** `re.search` takes the leftmost start that matches, and the greedy `.*`
      makes it the longest match from that start. */
  ghost predicate SearchFinds(s: string, i: int, j: int) {
    && RegexMatch(s, i, j)
    && (forall i', j' :: RegexMatch(s, i', j') ==> i <= i')
    && (forall j' :: RegexMatch(s, i, j') ==> j' <= j)
  }

  /** The fallback candidate: from the first `{` through the last `}`, present
      only when some `}` comes after the first `{`. */
  function BraceSpan(s: string): (r: Option<string>)
    ensures r.Some? ==> |r.value| >= 2 && r.value[0] == '{' && r.value[|r.value| - 1] == '}'
  {
    match IndexOf(s, '{')
    case None => None
    case Some(i) =>
      match LastIndexOf(s, '}')
      case None => None
      case Some(j) => if i < j then Some(s[i..j + 1]) else None
  }

  /** `BraceSpan` is what `re.search(r'\{.*\}', s, re.DOTALL)` returns: it
      exists exactly when the regex matches anywhere, and it is the match
      with the leftmost start and, from there, the longest extent. */
  lemma BraceSpanIsSearch(s: string)
    ensures BraceSpan(s).Some? <==> exists i, j :: RegexMatch(s, i, j)
    ensures BraceSpan(s).Some? ==> exists i, j :: SearchFinds(s, i, j) && BraceSpan(s).value == s[i..j + 1]
  {
    match IndexOf(s, '{')
    case None =>
    case Some(i) =>
      match LastIndexOf(s, '}')
      case None =>
      case Some(j) =>
        if i < j {
          assert SearchFinds(s, i, j);
        }
  }

  /** Leftmost-longest determines the match: any search result is the span. */
  lemma BraceSpanUnique(s: string, i: int, j: int)
    requires SearchFinds(s, i, j)
    ensures BraceSpan(s) == Some(s[i..j + 1])
  {
    BraceSpanIsSearch(s);
    var i', j' :| SearchFinds(s, i', j') && BraceSpan(s).value == s[i'..j' + 1];
    assert RegexMatch(s, i', j') && RegexMatch(s, i, j);
    assert i == i';
    assert RegexMatch(s, i, j');
  }

  // ---------------------------------------------------------------------
  // The two-stage parser (the inner try at lines 81-101)
  // ---------------------------------------------------------------------

  /** The value a stage hands back when it succeeds: one holding all three
      score keys. Nothing about the scores themselves is checked. */
  predicate HasScores(v: Json) {
    CheckKeys(RequiredKeys, v) == AllPresent
  }

  /** What the key test at lines 85 and 95 accepts: a dict holding the three
      keys, a list holding the three strings, or a str containing the three
      words; never `None`, a bool or a number. */
  lemma HasScoresMeans(v: Json)
    ensures v.JObject? ==> (HasScores(v) <==> "positive" in v.members && "negative" in v.members && "neutral" in v.members)
    ensures v.JArray? ==> (HasScores(v) <==> JString("positive") in v.items && JString("negative") in v.items
                                              && JString("neutral") in v.items)
    ensures v.JString? ==> (HasScores(v) <==> Contains(v.s, "positive") && Contains(v.s, "negative")
                                               && Contains(v.s, "neutral"))
    ensures !(v.JObject? || v.JArray? || v.JString?) ==> !HasScores(v)
  {
    var k := RequiredKeys;
    assert k[0] == "positive" && k[1] == "negative" && k[2] == "neutral";
    if !(v.JObject? || v.JArray? || v.JString?) {
      assert In(k[0], v).NotIterable?;
    }
  }

  /** Stage 2: decode the regex span; any failure in that stage (no span, a
      decode error, a missing key, a `TypeError`) is swallowed by the bare
      `except` and replaced by the terminal error naming the whole text. */
  function Fallback(text: string, loads: Loads): (r: Result<Json>)
    ensures r.Ok? <==> BraceSpan(text).Some? && loads(BraceSpan(text).value).Some?
                       && HasScores(loads(BraceSpan(text).value).value)
    ensures r.Ok? ==> r.value == loads(BraceSpan(text).value).value
    ensures r.Err? ==> r.message == ParseFailurePrefix + text
  {
    match BraceSpan(text)
    case None => Err(ParseFailurePrefix + text)
    case Some(candidate) =>
      match loads(candidate)
      case Some(v) => if HasScores(v) then Ok(v) else Err(ParseFailurePrefix + text)
      case None => Err(ParseFailurePrefix + text)
  }

  /** Stage 1, then stage 2 only when stage 1's decode raised. A value that
      decodes but lacks a key raises `ValueError`, which the
      `except json.JSONDecodeError` does not catch, so no fallback follows;
      the same holds for the `TypeError` of a scalar value. */
  function ParseScores(text: string, loads: Loads): (r: Result<Json>)
    ensures r.Ok? ==> HasScores(r.value)
    ensures loads(text).Some? ==> r == if HasScores(loads(text).value) then Ok(loads(text).value)
                                       else if CheckKeys(RequiredKeys, loads(text).value) == SomeMissing
                                       then Err(MissingKeysError)
                                       else Err(NotIterableMessage(CheckKeys(RequiredKeys, loads(text).value).typeName))
    ensures loads(text).None? ==> r == Fallback(text, loads)
  {
    match loads(text)
    case None => Fallback(text, loads)
    case Some(v) =>
      match CheckKeys(RequiredKeys, v)
      case AllPresent => Ok(v)
      case SomeMissing => Err(MissingKeysError)
      case KeyTypeError(t) => Err(NotIterableMessage(t))
  }

  // ---------------------------------------------------------------------
  // The whole of analyze_reviews
  // ---------------------------------------------------------------------

  /** The user message sent to the model: fixed instructions around the JSON
      text of the review batch. Only the embedded batch varies. */
  datatype Prompt = Prompt(serialisedBatch: string)

  /** `analyze_reviews(batch)`. `dumps` is `json.dumps`, which runs before the
      `try` and so fails unwrapped; `complete` is the chat-completion call
      up to and including reading the first choice's content, whose failures
      the outer `except` rewraps. */
  function AnalyzeReviews<C>(batch: seq<C>, dumps: seq<C> -> Result<string>,
                             complete: Prompt -> Result<string>, loads: Loads): (r: Result<Json>)
    ensures r.Ok? ==> HasScores(r.value)
    ensures r.Ok? ==> dumps(batch).Ok? && complete(Prompt(dumps(batch).value)).Ok?
    ensures dumps(batch).Err? ==> r == Err(dumps(batch).message)
    ensures dumps(batch).Ok? && r.Err? ==>
              |r.message| >= |ApiErrorPrefix| && r.message[..|ApiErrorPrefix|] == ApiErrorPrefix
    ensures dumps(batch).Ok? && complete(Prompt(dumps(batch).value)).Err? ==>
              r == Err(ApiErrorPrefix + complete(Prompt(dumps(batch).value)).message)
    ensures dumps(batch).Ok? && complete(Prompt(dumps(batch).value)).Ok? ==>
              var parsed := ParseScores(Trim(complete(Prompt(dumps(batch).value)).value), loads);
              r == if parsed.Ok? then parsed else Err(ApiErrorPrefix + parsed.message)
  {
    match dumps(batch)
    case Err(e) => Err(e)
    case Ok(serialised) =>
      match complete(Prompt(serialised))
      case Err(detail) => Err(ApiErrorPrefix + detail)
      case Ok(content) =>
        match ParseScores(Trim(content), loads)
        case Ok(v) => Ok(v)
        case Err(e) => Err(ApiErrorPrefix + e)
  }

  // ---------------------------------------------------------------------
  // Properties
  // ---------------------------------------------------------------------

  /** Every value the parser returns is one of the two decodes it tried: the
      whole text, or (only after the whole text failed to decode) the regex
      span. Together with `ParseScores`'s own contract this is an exact
      account of when the parser succeeds. */
  lemma ParseScoresOkIff(text: string, loads: Loads, v: Json)
    ensures ParseScores(text, loads) == Ok(v) <==>
              || (loads(text) == Some(v) && HasScores(v))
              || (loads(text) == None && BraceSpan(text).Some?
                  && loads(BraceSpan(text).value) == Some(v) && HasScores(v))
  {
  }

  /** When the whole text decodes, the outcome depends on that decode alone:
      the fallback is never consulted. */
  lemma DirectDecodeDecides(text: string, loads1: Loads, loads2: Loads)
    requires loads1(text).Some? && loads1(text) == loads2(text)
    ensures ParseScores(text, loads1) == ParseScores(text, loads2)
  {
  }

  /** A decoded object lacking a score key is a missing-key error, even when
      the regex span would decode to a complete score object. */
  lemma MissingKeysSkipsFallback(text: string, loads: Loads, m: map<string, Json>)
    requires loads(text) == Some(JObject(m))
    requires !("positive" in m && "negative" in m && "neutral" in m)
    ensures ParseScores(text, loads) == Err(MissingKeysError)
  {
    CheckKeysObject(RequiredKeys, m);
    assert !(forall i :: 0 <= i < |RequiredKeys| ==> RequiredKeys[i] in m) by {
      if "positive" !in m { assert RequiredKeys[0] !in m; }
      else if "negative" !in m { assert RequiredKeys[1] !in m; }
      else { assert RequiredKeys[2] !in m; }
    }
  }

  /** A decoded scalar (`None`, a bool, an int or a float) makes the first
      membership test raise `TypeError`; that error, too, escapes the stage
      without a fallback, and its text names the scalar's Python type. */
  lemma ScalarSkipsFallback(text: string, loads: Loads, v: Json)
    requires loads(text) == Some(v) && !(v.JObject? || v.JArray? || v.JString?)
    ensures ParseScores(text, loads) == Err(NotIterableMessage(In(RequiredKeys[0], v).typeName))
    ensures v.JInt? ==> ParseScores(text, loads) == Err(NotIterableMessage("int"))
    ensures v.JNull? ==> ParseScores(text, loads) == Err(NotIterableMessage("NoneType"))
  {
    assert CheckKeys(RequiredKeys, v) == KeyTypeError(In(RequiredKeys[0], v).typeName);
  }

  /** A text that does not decode and has no `}` after its first `{` ends in
      the terminal error, which carries the whole stripped text. */
  lemma NoCandidateIsTerminal(text: string, loads: Loads)
    requires loads(text) == None
    requires forall i, j :: 0 <= i < j < |text| && text[i] == '{' ==> text[j] != '}'
    ensures ParseScores(text, loads) == Err(ParseFailurePrefix + text)
  {
    assert !exists i, j :: RegexMatch(text, i, j);
    BraceSpanIsSearch(text);
  }

  /** Brace-free prose before a text does not change the span. */
  lemma BraceSpanAfterProse(p: string, t: string)
    requires '{' !in p && '}' !in p
    ensures BraceSpan(p + t) == BraceSpan(t)
  {
    var i, j := IndexOf(t, '{'), LastIndexOf(t, '}');
    IndexOfAfter(p, t, '{');
    LastIndexOfAfter(p, t, '}');
    if i.Some? && j.Some? && i.value < j.value {
      SliceAfterPrefix(p, t, i.value, j.value + 1);
    }
    SpanShift(p + t, t, |p|);
  }

  /** Brace-free prose after a text does not change the span. */
  lemma BraceSpanBeforeProse(t: string, q: string)
    requires '{' !in q && '}' !in q
    ensures BraceSpan(t + q) == BraceSpan(t)
  {
    var i, j := IndexOf(t, '{'), LastIndexOf(t, '}');
    IndexOfBefore(t, q, '{');
    LastIndexOfBefore(t, q, '}');
    if i.Some? && j.Some? && i.value < j.value {
      SliceBeforeSuffix(t, q, i.value, j.value + 1);
    }
    SpanShift(t + q, t, 0);
  }

  lemma SliceAfterPrefix(p: string, t: string, i: nat, j: nat)
    requires i <= j <= |t|
    ensures (p + t)[|p| + i..|p| + j] == t[i..j]
  {
    assert (p + t)[|p|..] == t;
  }

  lemma SliceBeforeSuffix(t: string, q: string, i: nat, j: nat)
    requires i <= j <= |t|
    ensures (t + q)[0 + i..0 + j] == t[i..j]
  {
    assert (t + q)[..|t|] == t;
  }

  /** Braces only come from the middle: prose around a text, without braces
      of its own, does not move the span. */
  lemma BraceSpanFramed(p: string, m: string, q: string)
    requires '{' !in p && '}' !in p && '{' !in q && '}' !in q
    ensures BraceSpan(p + m + q) == BraceSpan(m)
  {
    assert p + m + q == p + (m + q);
    BraceSpanAfterProse(p, m + q);
    BraceSpanBeforeProse(m, q);
  }

  /** A text whose first `{` and last `}` are those of `m` moved by `d`, and
      which holds between them what `m` holds, has the same span as `m`. */
  lemma SpanShift(s: string, m: string, d: nat)
    requires IndexOf(s, '{') == Shift(IndexOf(m, '{'), d)
    requires LastIndexOf(s, '}') == Shift(LastIndexOf(m, '}'), d)
    requires IndexOf(m, '{').Some? && LastIndexOf(m, '}').Some? && IndexOf(m, '{').value < LastIndexOf(m, '}').value ==>
      s[d + IndexOf(m, '{').value..d + LastIndexOf(m, '}').value + 1] == m[IndexOf(m, '{').value..LastIndexOf(m, '}').value + 1]
    ensures BraceSpan(s) == BraceSpan(m)
  {
    SpanCases(s);
    SpanCases(m);
  }

  /** The span, by cases on where the first `{` and the last `}` are. */
  lemma SpanCases(s: string)
    ensures IndexOf(s, '{').None? || LastIndexOf(s, '}').None? ==> BraceSpan(s).None?
    ensures IndexOf(s, '{').Some? && LastIndexOf(s, '}').Some? ==>
      BraceSpan(s) == if IndexOf(s, '{').value < LastIndexOf(s, '}').value
        then Some(s[IndexOf(s, '{').value..LastIndexOf(s, '}').value + 1]) else None
  {
  }

  /** A text that opens with `{` and closes with `}` is its own span. */
  lemma WholeSpan(body: string)
    ensures BraceSpan("{" + body + "}") == Some("{" + body + "}")
  {
    var m := "{" + body + "}";
    assert m[0] == '{' && m[|m| - 1] == '}';
    assert m[0..|m|] == m;
  }

  lemma {:induction false} NoBraceInSpace(s: string)
    requires AllSpace(s)
    ensures '{' !in s && '}' !in s
  {
    assert !IsSpace('{') && !IsSpace('}');
  }

  /** Searching the stripped text finds the same span as searching the raw
      completion: whitespace holds no braces. */
  lemma BraceSpanOfTrim(s: string)
    ensures BraceSpan(Trim(s)) == BraceSpan(s)
  {
    var p, q := s[..Lead(s)], s[Lead(s) + |Trim(s)|..];
    TrimFrame(s);
    NoBraceInSpace(p);
    NoBraceInSpace(q);
    BraceSpanFramed(p, Trim(s), q);
  }

  lemma SpaceConcat(a: string, b: string)
    requires AllSpace(a) && AllSpace(b)
    ensures AllSpace(a + b)
  {
    assert forall k :: 0 <= k < |a + b| ==> (a + b)[k] == if k < |a| then a[k] else b[k - |a|];
  }

  lemma Regroup(a: string, b: string, c: string, d: string, e: string)
    ensures a + (b + c + d) + e == (a + b) + c + (d + e)
  {
  }

  /** Whitespace around the completion never changes the outcome. */
  lemma AnalyzeReviewsIgnoresPadding<C>(batch: seq<C>, dumps: seq<C> -> Result<string>,
                                        complete1: Prompt -> Result<string>,
                                        complete2: Prompt -> Result<string>,
                                        loads: Loads, content: string, p: string, q: string)
    requires dumps(batch).Ok?
    requires AllSpace(p) && AllSpace(q)
    requires complete1(Prompt(dumps(batch).value)) == Ok(content)
    requires complete2(Prompt(dumps(batch).value)) == Ok(p + content + q)
    ensures AnalyzeReviews(batch, dumps, complete1, loads) == AnalyzeReviews(batch, dumps, complete2, loads)
  {
    var t := Trim(content);
    var p', q' := content[..Lead(content)], content[Lead(content) + |t|..];
    TrimFrame(content);
    SpaceConcat(p, p');
    SpaceConcat(q', q);
    Regroup(p, p', t, q', q);
    TrimUnique(p + content + q, p + p', t, q' + q);
  }

  /** A missing score key surfaces as a rewrapped `ValueError`, and the
      message does not quote the completion text. */
  lemma MissingKeysMessage<C>(batch: seq<C>, dumps: seq<C> -> Result<string>,
                              complete: Prompt -> Result<string>, loads: Loads,
                              content: string, m: map<string, Json>)
    requires dumps(batch).Ok? && complete(Prompt(dumps(batch).value)) == Ok(content)
    requires loads(Trim(content)) == Some(JObject(m))
    requires !("positive" in m && "negative" in m && "neutral" in m)
    ensures AnalyzeReviews(batch, dumps, complete, loads)
            == Err(ApiErrorPrefix + MissingKeysError)
  {
    MissingKeysSkipsFallback(Trim(content), loads, m);
  }
  /** A stripped reply that decodes whole to a value with all three keys is
      returned unchanged: no fallback, no rewrap. */
  lemma DecodedReplyReturned<C>(batch: seq<C>, dumps: seq<C> -> Result<string>,
                                complete: Prompt -> Result<string>, loads: Loads,
                                content: string, v: Json)
    requires dumps(batch).Ok? && complete(Prompt(dumps(batch).value)) == Ok(content)
    requires loads(Trim(content)) == Some(v) && HasScores(v)
    ensures AnalyzeReviews(batch, dumps, complete, loads) == Ok(v)
  {
  }

  /** A reply that neither decodes whole nor holds a `{` before a `}` ends in
      the terminal error quoting the stripped reply, wrapped once more by the
      outer handler. */
  lemma UnparsableReplyWrapped<C>(batch: seq<C>, dumps: seq<C> -> Result<string>,
                                  complete: Prompt -> Result<string>, loads: Loads, content: string)
    requires dumps(batch).Ok? && complete(Prompt(dumps(batch).value)) == Ok(content)
    requires loads(Trim(content)) == None
    requires forall i, j :: 0 <= i < j < |Trim(content)| && Trim(content)[i] == '{' ==> Trim(content)[j] != '}'
    ensures AnalyzeReviews(batch, dumps, complete, loads)
            == Err(ApiErrorPrefix + (ParseFailurePrefix + Trim(content)))
  {
    NoCandidateIsTerminal(Trim(content), loads);
  }


  // ---------------------------------------------------------------------
  // Sample completions: a reply wrapped in prose, and a reply missing a key
  // ---------------------------------------------------------------------

  function SampleScores(): Json {
    JObject(map["positive" := JFloat("0.6"), "negative" := JFloat("0.1"), "neutral" := JFloat("0.3")])
  }

  const ProseLead: string := "Sure! Here's the result: "
  const SampleObjectText: string := "{" + SampleMembers + "}"
  const SampleMembers: string := "\"positive\":0.6,\"negative\":0.1,\"neutral\":0.3"
  const ProseTail: string := " Hope that helps."

  lemma ProseSpan()
    ensures BraceSpan(ProseLead + SampleObjectText + ProseTail) == Some(SampleObjectText)
  {
    assert '{' !in ProseLead && '}' !in ProseLead;
    assert '{' !in ProseTail && '}' !in ProseTail;
    BraceSpanFramed(ProseLead, SampleObjectText, ProseTail);
    WholeSpan(SampleMembers);
  }

  lemma SampleHasScores()
    ensures HasScores(SampleScores())
  {
    CheckKeysObject(RequiredKeys, SampleScores().members);
  }

  /** A reply in prose with the score object inside it does not decode as a
      whole, and the fallback returns the embedded object. */
  lemma ProseWrappedReplyUsesFallback(loads: Loads)
    requires loads(ProseLead + SampleObjectText + ProseTail) == None
    requires loads(SampleObjectText) == Some(SampleScores())
    ensures ParseScores(ProseLead + SampleObjectText + ProseTail, loads) == Ok(SampleScores())
  {
    ProseSpan();
    SampleHasScores();
  }

  /** A reply missing `neutral`: it decodes, so it ends in the missing-key
      error. One might expect the fallback and then the terminal error that
      quotes the text, but the `ValueError` of line 86 is not caught by the
      handler at line 89. */
  lemma IncompleteObjectIsMissingKeys(loads: Loads)
    requires loads(IncompleteObjectText) == Some(JObject(map["positive" := JFloat("0.5"), "negative" := JFloat("0.5")]))
    ensures ParseScores(IncompleteObjectText, loads) == Err(MissingKeysError)
  {
    MissingKeysSkipsFallback(IncompleteObjectText, loads, map["positive" := JFloat("0.5"), "negative" := JFloat("0.5")]);
  }

  const IncompleteObjectText: string := "{\"positive\":0.5,\"negative\":0.5}"

}
