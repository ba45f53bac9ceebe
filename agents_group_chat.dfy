/**
 * The two decision rules of the multi-agent group chat: which participant
 * speaks next, read from the selection classifier's reply, and when the
 * conversation has reached its goal.
 */
module AgentsGroupChat {
  import opened Runtime
  import opened Strings
  import JsonResultTranslator

  const QueryExecutorName: String := "QueryExecutor"
  const RequestCoordinatorName: String := "RequestCoordinator"
  const ResourceTaggerName: String := "ResourceTagger"

  /** The agents of the chat, in the order they are added to it. */
  const Participants: seq<String> := [QueryExecutorName, ResourceTaggerName, RequestCoordinatorName]

  /** The phrase with which the coordinator announces that the user's goal is met. */
  const GoalSentinel: String := "GOAL_IS_ACHIEVED"

  // ---------------------------------------------------------------------------
  // Selecting the next speaker

  /** The classifier's answer as deserialised; a property missing from the JSON is null. */
  datatype AgentSelectionResult = AgentSelectionResult(name: Option<String>, reason: Option<String>)

  /** The deserialiser's view of a text: an answer, a JSON `null`, or an exception. */
  type Deserializer = String -> Result<Option<AgentSelectionResult>>

  /** The answer is present and its `name` is neither null nor blank. */
  predicate NamesAgent(jsonResult: Option<AgentSelectionResult>) {
    jsonResult.Some? && !IsNullOrWhiteSpace(jsonResult.value.name)
  }

  /** `jsonResult?.name`. */
  function NameOf(jsonResult: Option<AgentSelectionResult>): Option<String> {
    if jsonResult.Some? then jsonResult.value.name else None
  }

  /** The fallback agent's name is not blank. */
  lemma CoordinatorNameNotBlank()
    ensures !IsNullOrWhiteSpace(Some(RequestCoordinatorName))
  {
    assert !IsWhiteSpace(RequestCoordinatorName[0]);
  }

  /**
   * The agent chosen from a deserialised answer: the answer's name when it has
   * one, otherwise the coordinator. The result is never blank.
   */
  function SelectedAgent(jsonResult: Option<AgentSelectionResult>): (agent: String)
    ensures NamesAgent(jsonResult) ==> agent == jsonResult.value.name.value
    ensures !NamesAgent(jsonResult) ==> agent == RequestCoordinatorName
    ensures !IsNullOrWhiteSpace(Some(agent))
  {
    CoordinatorNameNotBlank();
    var agentName := if IsNullOrWhiteSpace(NameOf(jsonResult)) then None else NameOf(jsonResult);
    agentName.GetOr(RequestCoordinatorName)
  }

  /**
   * The selection strategy's result parser: translate the classifier's reply and
   * pick the agent it names, falling back to the coordinator. Exceptions from
   * the translation propagate; there is no fallback for them.
   */
  function ResultParser(reply: Option<String>, deserialize: Deserializer): (r: Result<String>)
    ensures r.Ok? ==> !IsNullOrWhiteSpace(Some(r.value))
    ensures IsNullOrWhiteSpace(reply) ==> r == Ok(RequestCoordinatorName)
    ensures r.Err? <==> JsonResultTranslator.Translate(reply, deserialize).Err?
    ensures r.Err? ==> r.error == JsonResultTranslator.Translate(reply, deserialize).error
  {
    var jsonResult :- JsonResultTranslator.Translate(reply, deserialize);
    Ok(SelectedAgent(jsonResult))
  }

  /** A reply whose text deserialises to an answer with a name selects exactly that name. */
  lemma NamedAgentSelected(reply: String, raw: String, deserialize: Deserializer, name: String, reason: Option<String>)
    requires !IsNullOrWhiteSpace(Some(reply)) && JsonResultTranslator.ExtractJson(reply) == Ok(raw)
    requires deserialize(raw) == Ok(Some(AgentSelectionResult(Some(name), reason)))
    requires !IsNullOrWhiteSpace(Some(name))
    ensures ResultParser(Some(reply), deserialize) == Ok(name)
  {
  }

  /**
   * When the answer is JSON `null`, or its name is missing, empty or blank, the
   * coordinator is selected.
   */
  lemma FallbackToCoordinator(reply: String, raw: String, deserialize: Deserializer)
    requires !IsNullOrWhiteSpace(Some(reply)) && JsonResultTranslator.ExtractJson(reply) == Ok(raw)
    requires deserialize(raw).Ok? && !NamesAgent(deserialize(raw).value)
    ensures ResultParser(Some(reply), deserialize) == Ok(RequestCoordinatorName)
  {
  }

  /** A deserialiser exception is not recovered from: the parser throws it too. */
  lemma ParseErrorPropagates(reply: String, raw: String, deserialize: Deserializer)
    requires !IsNullOrWhiteSpace(Some(reply)) && JsonResultTranslator.ExtractJson(reply) == Ok(raw)
    requires deserialize(raw) == Err(JsonException)
    ensures ResultParser(Some(reply), deserialize) == Err(JsonException)
  {
  }

  /** Two answers that agree on the name and the exception, differing at most in reason. */
  predicate SameChoice(a: Result<Option<AgentSelectionResult>>, b: Result<Option<AgentSelectionResult>>) {
    a.Err? == b.Err? && (a.Err? ==> a.error == b.error) && (a.Ok? ==> NameOf(a.value) == NameOf(b.value))
  }

  /** The `reason` of the answer never influences which agent is selected. */
  lemma {:induction false} ReasonIgnored(reply: Option<String>, d1: Deserializer, d2: Deserializer)
    requires forall raw :: SameChoice(d1(raw), d2(raw))
    ensures ResultParser(reply, d1) == ResultParser(reply, d2)
  {
    if !IsNullOrWhiteSpace(reply) && JsonResultTranslator.ExtractJson(reply.value).Ok? {
      var raw := JsonResultTranslator.ExtractJson(reply.value).value;
      assert SameChoice(d1(raw), d2(raw));
    }
  }

  /** The participant names are distinct and the fallback is one of them. */
  lemma ParticipantNames()
    ensures QueryExecutorName != RequestCoordinatorName && RequestCoordinatorName != ResourceTaggerName
    ensures ResourceTaggerName != QueryExecutorName
    ensures RequestCoordinatorName in Participants
  {
  }

  /**
   * A classifier reply that wraps its JSON answer in a "json" block on lines of
   * its own selects the agent the answer names; the deserialiser receives the
   * answer with the surrounding line breaks.
   */
  lemma FencedReplySelectsNamedAgent(json: String, name: String, reason: Option<String>, deserialize: Deserializer)
    requires '`' !in json && !IsNullOrWhiteSpace(Some(name))
    requires deserialize("\n" + json + "\n") == Ok(Some(AgentSelectionResult(Some(name), reason)))
    ensures ResultParser(Some("```json\n" + json + "\n```"), deserialize) == Ok(name)
  {
    var reply := "```json\n" + json + "\n```";
    BlockOnOwnLinesExtracts(json);
    assert !IsWhiteSpace(reply[0]);
    NamedAgentSelected(reply, "\n" + json + "\n", deserialize, name, reason);
  }

  /** The body of a "json" block on lines of its own is the JSON with its line breaks. */
  lemma BlockOnOwnLinesExtracts(json: String)
    requires '`' !in json
    ensures JsonResultTranslator.ExtractJson("```json\n" + json + "\n```") == Ok("\n" + json + "\n")
  {
    var body := "\n" + json + "\n";
    assert "" + "```" + "json" + body + "```" + "" == "```json\n" + json + "\n```";
    assert '`' !in body;
    JsonResultTranslator.NoBacktickClosable(body);
    JsonResultTranslator.NoBacktickClosable("");
    JsonResultTranslator.RoundTripTagged("", "json", body, "");
  }

  /** An empty reply selects the coordinator without any exception. */
  lemma EmptyReplySelectsCoordinator(deserialize: Deserializer)
    ensures ResultParser(Some(""), deserialize) == Ok(RequestCoordinatorName)
    ensures ResultParser(None, deserialize) == Ok(RequestCoordinatorName)
  {
  }

  // ---------------------------------------------------------------------------
  // Termination

  datatype AuthorRole = User | Assistant | System | Tool

  /** A chat message; its content may be null (a message carrying only tool calls). */
  datatype ChatMessage = ChatMessage(role: AuthorRole, authorName: Option<String>, content: Option<String>)

  /** The last message's content contains the goal phrase in some letter case. */
  ghost predicate AnnouncesGoal(content: Option<String>) {
    content.Some? && exists i: nat :: MatchesAt(content.value, GoalSentinel, i, true)
  }

  /**
   * The approval termination strategy: stop when the last message of the
   * history contains the goal phrase, ignoring case; null content never stops.
   */
  function ShouldAgentTerminate(history: seq<ChatMessage>): (terminate: bool)
    requires |history| > 0
    ensures terminate <==> AnnouncesGoal(history[|history| - 1].content)
  {
    var content := history[|history| - 1].content;
    if content.Some? then
      ContainsIff(content.value, GoalSentinel, true);
      Contains(content.value, GoalSentinel, true)
    else
      false
  }

  /** A last message without content never ends the chat. */
  lemma NullContentNeverTerminates(history: seq<ChatMessage>)
    requires |history| > 0 && history[|history| - 1].content.None?
    ensures !ShouldAgentTerminate(history)
  {
  }

  /** Only the last message's content matters; earlier messages, roles and authors do not. */
  lemma OnlyLastContentMatters(h1: seq<ChatMessage>, h2: seq<ChatMessage>)
    requires |h1| > 0 && |h2| > 0 && h1[|h1| - 1].content == h2[|h2| - 1].content
    ensures ShouldAgentTerminate(h1) == ShouldAgentTerminate(h2)
  {
  }

  /** The goal phrase in any letter case, anywhere in the last message, ends the chat. */
  lemma {:induction false} GoalPhraseTerminates(history: seq<ChatMessage>, lead: String, phrase: String, trail: String)
    requires |history| > 0 && history[|history| - 1].content == Some(lead + phrase + trail)
    requires Equals(phrase, GoalSentinel, true)
    ensures ShouldAgentTerminate(history)
  {
    var c := lead + phrase + trail;
    forall k | 0 <= k < |GoalSentinel| ensures CharEquals(c[|lead| + k], GoalSentinel[k], true) {
      assert c[|lead| + k] == phrase[k];
    }
    assert MatchesAt(c, GoalSentinel, |lead|, true);
  }

  /** Messages that differ only in the case of ASCII letters end the chat alike. */
  lemma {:induction false} TerminationIgnoresCase(h1: seq<ChatMessage>, h2: seq<ChatMessage>)
    requires |h1| > 0 && |h2| > 0
    requires h1[|h1| - 1].content.Some? && h2[|h2| - 1].content.Some?
    requires var c1, c2 := h1[|h1| - 1].content.value, h2[|h2| - 1].content.value;
      |c1| == |c2| && forall k :: 0 <= k < |c1| ==> ToLowerAscii(c1[k]) == ToLowerAscii(c2[k])
    ensures ShouldAgentTerminate(h1) == ShouldAgentTerminate(h2)
  {
    var c1, c2 := h1[|h1| - 1].content.value, h2[|h2| - 1].content.value;
    forall i: nat ensures MatchesAt(c1, GoalSentinel, i, true) <==> MatchesAt(c2, GoalSentinel, i, true) {
      if i + |GoalSentinel| <= |c1| {
        forall k | 0 <= k < |GoalSentinel|
          ensures CharEquals(c1[i + k], GoalSentinel[k], true) <==> CharEquals(c2[i + k], GoalSentinel[k], true)
        {
        }
      }
    }
  }

  /** The coordinator's closing message, as its instructions ask for it, ends the chat. */
  lemma TerminationScenario(history: seq<ChatMessage>)
    requires |history| > 0
    requires history[|history| - 1] == ChatMessage(Assistant, Some(RequestCoordinatorName), Some("Task done. GOAL_IS_ACHIEVED."))
    ensures ShouldAgentTerminate(history)
  {
    assert "Task done. GOAL_IS_ACHIEVED." == "Task done. " + GoalSentinel + ".";
    GoalPhraseTerminates(history, "Task done. ", GoalSentinel, ".");
  }

  /** A message shorter than the phrase, such as the phrase cut short, does not end the chat. */
  lemma TruncatedPhraseDoesNotTerminate(history: seq<ChatMessage>)
    requires |history| > 0 && history[|history| - 1].content == Some(GoalSentinel[..|GoalSentinel| - 1])
    ensures !ShouldAgentTerminate(history)
  {
  }
}
