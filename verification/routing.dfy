/** The consultant bots of the generator tutorial: a router picks "doctor",
    "lawyer" or something else, and the query goes to the matching specialist
    or gets a fixed apology. Generators (LLM calls) are function parameters:
    the router maps a query and its choices to the `data` of its output, which
    may be `None`; a specialist maps its `input_str` to its answer. */
module Routing {
  import opened Wrappers
  import opened Text

  /** The router's `choices` prompt argument: key to description. */
  type Choices = map<string, Option<string>>

  /** The router generator: query and choices to the chosen key, if any. */
  type RouterGen = (string, Choices) -> Option<string>

  /** A specialist generator: `input_str` to its answer. */
  type Specialist = Option<string> -> string

  /** The specialists' prompt templates, `<SYS> You are a doctor </SYS> User:
      {{input_str}}` and its lawyer twin, written as tag, persona and tail. */
  const TemplateTail: string := " User: {{input_str}}"
  const TemplateDoc: string := "<SYS>" + " You are a doctor " + "</SYS>" + TemplateTail
  const TemplateLaw: string := "<SYS>" + " You are a lawyer " + "</SYS>" + TemplateTail

  const ChatBotApology: string := "Sorry, I cannot help you with that."
  const ChatApology: string := "Sorry, I am not able to help you with that."

  /* ---------------- dispatch ---------------- */

  /** Who answers. */
  datatype Handler = Doctor | Lawyer | Decline

  /** The choice test shared by `ChatBotWithRouter.call` and `Chat.call`:
      exact, case-sensitive comparison with "doctor", then "lawyer". */
  function Dispatch(choice: Option<string>): (h: Handler)
    ensures h == Doctor <==> choice == Some("doctor")
    ensures h == Lawyer <==> choice == Some("lawyer")
  {
    if choice == Some("doctor") then Doctor
    else if choice == Some("lawyer") then Lawyer
    else Decline
  }

  /** The answer of the chosen handler. */
  function Answer(h: Handler, input: Option<string>, doc: Specialist, lawyer: Specialist, apology: string): string {
    match h
    case Doctor => doc(input)
    case Lawyer => lawyer(input)
    case Decline => apology
  }

  /** Matching is exact: a choice differing from "doctor" and "lawyer" in any
      way, letter case included, is declined. */
  lemma DispatchIsExact(choice: string)
    requires choice != "doctor" && choice != "lawyer"
    ensures Dispatch(Some(choice)) == Decline
    ensures Dispatch(Some("Doctor")) == Decline && Dispatch(Some("other")) == Decline
  {
  }

  /* ---------------- ChatBotWithRouter ---------------- */

  /** `ChatBotWithRouter.router_choices`. */
  function RouterChoices(): (c: Choices)
    ensures c.Keys == {"doctor", "lawyer", "other"}
  {
    map["doctor" := CreateGeneratorSignature(TemplateDoc),
        "lawyer" := CreateGeneratorSignature(TemplateLaw),
        "other" := Some("Choose me the question does not apply to other choices.")]
  }

  /** `ChatBotWithRouter.call(query)`. */
  function ChatBotCall(query: string, router: RouterGen, doc: Specialist, lawyer: Specialist): (r: string)
    ensures router(query, RouterChoices()) == Some("doctor") ==> r == doc(Some(query))
    ensures router(query, RouterChoices()) == Some("lawyer") ==> r == lawyer(Some(query))
    ensures router(query, RouterChoices()) !in {Some("doctor"), Some("lawyer")} ==> r == ChatBotApology
  {
    Answer(Dispatch(router(query, RouterChoices())), Some(query), doc, lawyer, ChatBotApology)
  }

  /** Only the chosen specialist is consulted: the answer does not depend on
      the other one, and a declined query depends on neither. */
  lemma ChatBotConsultsOnlyChosen(query: string, router: RouterGen, doc: Specialist, lawyer: Specialist,
                                  doc': Specialist, lawyer': Specialist)
    ensures router(query, RouterChoices()) != Some("doctor") ==>
      ChatBotCall(query, router, doc', lawyer) == ChatBotCall(query, router, doc, lawyer)
    ensures router(query, RouterChoices()) != Some("lawyer") ==>
      ChatBotCall(query, router, doc, lawyer') == ChatBotCall(query, router, doc, lawyer)
  {
  }

  /* ---------------- Router, Chat, QAWithRouter ---------------- */

  /** The dict `Router.call` returns. */
  type Message = map<string, Option<string>>

  /** `Router.call(query)`: the router's choice together with the query. */
  function RouterCall(choices: Choices, query: string, router: RouterGen): (m: Message)
    ensures m.Keys == {"choice", "query"}
    ensures m["query"] == Some(query)
    ensures m["choice"] == router(query, choices)
  {
    map["choice" := router(query, choices), "query" := Some(query)]
  }

  /** `input.get(key, None)`. */
  function Get(input: Message, key: string): Option<string> {
    if key in input then input[key] else None
  }

  /** `Chat.call(input)`. */
  function ChatCall(input: Message, doc: Specialist, lawyer: Specialist): (r: string)
    ensures Get(input, "choice") == Some("doctor") ==> r == doc(Get(input, "query"))
    ensures Get(input, "choice") == Some("lawyer") ==> r == lawyer(Get(input, "query"))
    ensures Get(input, "choice") !in {Some("doctor"), Some("lawyer")} ==> r == ChatApology
  {
    Answer(Dispatch(Get(input, "choice")), Get(input, "query"), doc, lawyer, ChatApology)
  }

  /** A message without "choice" is declined; one without "query" reaches the
      chosen specialist with `None`. */
  lemma ChatMissingKeys(input: Message, doc: Specialist, lawyer: Specialist)
    ensures "choice" !in input ==> ChatCall(input, doc, lawyer) == ChatApology
    ensures "query" !in input && Get(input, "choice") == Some("doctor") ==> ChatCall(input, doc, lawyer) == doc(None)
  {
  }

  /** `QAWithRouter`'s choices. */
  const QAChoices: Choices := map["doctor" := Some("Doctor"), "lawyer" := Some("Lawyer"), "other" := Some("Other")]

  /** `QAWithRouter.call(query)`: the router followed by the chat, which
      answers like `ChatBotWithRouter` except for its own choices and its own
      apology. */
  function QACall(query: string, router: RouterGen, doc: Specialist, lawyer: Specialist): (r: string)
    ensures router(query, QAChoices) == Some("doctor") ==> r == doc(Some(query))
    ensures router(query, QAChoices) == Some("lawyer") ==> r == lawyer(Some(query))
    ensures router(query, QAChoices) !in {Some("doctor"), Some("lawyer")} ==> r == ChatApology
  {
    ChatCall(RouterCall(QAChoices, query, router), doc, lawyer)
  }

  /* ---------------- create_generator_signature ---------------- */

  /** The regex `<SYS>(.*?)</SYS>` matches from `i` to `j`: an opening tag at
      `i`, a closing tag at `j`, and no newline in between. */
  predicate SysPairAt(t: string, i: int, j: int) {
    && OccursAt(t, "<SYS>", i)
    && i + 5 <= j
    && OccursAt(t, "</SYS>", j)
    && forall m :: i + 5 <= m < j ==> t[m] != '\n'
  }

  /** The match `re.findall` reports first for the lazy pattern: the tag
      pair starting leftmost, closed by the nearest closing tag. */
  ghost predicate LeftmostShortest(t: string, a: int, b: int) {
    && SysPairAt(t, a, b)
    && (forall a', b' :: 0 <= a' < a ==> !SysPairAt(t, a', b'))
    && (forall j :: j < b ==> !SysPairAt(t, a, j))
  }

  /** The first closing tag at or after `k` reachable without a newline. */
  function CloseFrom(t: string, k: nat): (j: Option<nat>)
    requires k <= |t|
    ensures j.Some? ==> k <= j.value && OccursAt(t, "</SYS>", j.value)
    ensures j.Some? ==> forall m :: k <= m < j.value ==> t[m] != '\n' && !OccursAt(t, "</SYS>", m)
    ensures j.None? ==> forall m :: k <= m < |t| && OccursAt(t, "</SYS>", m) ==> exists n :: k <= n < m && t[n] == '\n'
    decreases |t| - k
  {
    if OccursAt(t, "</SYS>", k) then Some(k)
    else if k == |t| || t[k] == '\n' then None
    else CloseFrom(t, k + 1)
  }

  /** The positions of the first match of the regex at or after `i`:
      leftmost opening tag, then shortest body. */
  function FirstSysPair(t: string, i: nat): (r: Option<(nat, nat)>)
    requires i <= |t|
    ensures r.Some? ==> i <= r.value.0 && SysPairAt(t, r.value.0, r.value.1)
    ensures r.Some? ==> forall j :: !(j < r.value.1 && SysPairAt(t, r.value.0, j))
    ensures r.Some? ==> forall a, b :: i <= a < r.value.0 ==> !SysPairAt(t, a, b)
    ensures r.None? ==> forall a, b :: i <= a ==> !SysPairAt(t, a, b)
    decreases |t| - i
  {
    if i + 5 > |t| then None
    else if OccursAt(t, "<SYS>", i) && CloseFrom(t, i + 5).Some? then
      Some((i, CloseFrom(t, i + 5).value))
    else FirstSysPair(t, i + 1)
  }

  /** `create_generator_signature`: the body of the first `<SYS>…</SYS>` pair
      on one line, or `None` when the template has none. */
  function CreateGeneratorSignature(template: string): (r: Option<string>)
    ensures r.None? <==> forall a, b :: !SysPairAt(template, a, b)
    ensures r.Some? ==> exists a, b :: LeftmostShortest(template, a, b) && r.value == template[a + 5..b]
  {
    match FirstSysPair(template, 0)
    case None => None
    case Some((a, b)) =>
      assert LeftmostShortest(template, a, b);
      Some(template[a + 5..b])
  }

  /** The doctor's signature. */
  lemma DoctorSignature()
    ensures CreateGeneratorSignature(TemplateDoc) == Some(" You are a doctor ")
  {
    var body := " You are a doctor ";
    assert '<' !in body && '\n' !in body;
    SignatureOfTagged(body, TemplateTail);
  }

  /** The lawyer's signature. */
  lemma LawyerSignature()
    ensures CreateGeneratorSignature(TemplateLaw) == Some(" You are a lawyer ")
  {
    var body := " You are a lawyer ";
    assert '<' !in body && '\n' !in body;
    SignatureOfTagged(body, TemplateTail);
  }

  /** A template that opens with a tagged body free of '<' and newlines has
      that body as its signature, whatever follows. */
  lemma SignatureOfTagged(body: string, rest: string)
    requires '<' !in body && '\n' !in body
    ensures CreateGeneratorSignature("<SYS>" + body + "</SYS>" + rest) == Some(body)
  {
    var t := "<SYS>" + body + "</SYS>" + rest;
    assert t[..5] == "<SYS>";
    assert t[5..5 + |body|] == body;
    assert t[5 + |body|..11 + |body|] == "</SYS>";
    assert SysPairAt(t, 0, 5 + |body|);
    forall m | 5 <= m < 5 + |body|
      ensures !OccursAt(t, "</SYS>", m)
    {
      assert t[m] == body[m - 5];
    }
    var r := FirstSysPair(t, 0);
    var (a, b) := r.value;
    assert a == 0;
    assert SysPairAt(t, a, 5 + |body|);
    assert t[a + 5..b] == body;
  }

  /** The router of `ChatBotWithRouter` is shown the specialists' personas. */
  lemma RouterChoicesDescribeSpecialists()
    ensures RouterChoices()["doctor"] == Some(" You are a doctor ")
    ensures RouterChoices()["lawyer"] == Some(" You are a lawyer ")
  {
    DoctorSignature();
    LawyerSignature();
  }
}
