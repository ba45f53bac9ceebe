# Agent group chat: reply parsing and termination

This project models the two decision rules of a multi-agent Azure
resource assistant. Three agents share one chat: a query executor, a
resource tagger and a request coordinator. The rules are:

- **Next-speaker selection.** A classifier model replies with a JSON object
  `{ "name": …, "reason": … }`, sometimes wrapped in a fenced block
  (```` ```json … ``` ````). `JsonResultTranslator.Translate` strips the fence
  and deserialises the answer. The result parser of the selection strategy
  picks the named agent. When the answer is null or its name is blank, it
  falls back to the coordinator.
- **Termination.** The chat ends when the content of the last message
  contains the phrase `GOAL_IS_ACHIEVED`, in any letter case.

Modules:

- `Runtime` holds the .NET behaviour the code depends on. `Option` models a
  nullable value and `Result` a value or a thrown exception.
- `Strings` models the string primitives the code calls, on `seq<char>`:
  - `IndexOf`, with ordinal or OrdinalIgnoreCase comparison and a start index;
  - `Contains`;
  - `Equals`;
  - `Substring`, which throws `ArgumentOutOfRange`;
  - `char.IsWhiteSpace` and `string.IsNullOrWhiteSpace`.
- `JsonResultTranslator` holds the fence extraction and the translation.
  The translation takes the JSON deserialiser as a parameter.
- `AgentsGroupChat` holds:
  - the participant names;
  - the selection result parser;
  - the approval termination strategy.

Behaviour of the code that matters for the model:

- A deserialisation exception propagates out of `Translate` and out of the
  result parser: `ResultParser` returns `Err(JsonException)`.
- The extracted text is handed to the deserialiser as it stands. Line breaks
  around a fenced payload reach the deserialiser.
- After the first delimiter, the code reads the four characters of the
  possible `json` tag. When fewer than four characters follow the
  delimiter, `Substring` throws `ArgumentOutOfRangeException`. The model
  returns `Err(ArgumentOutOfRange)` exactly then; see `ExtractJson` and
  `ShortTailThrows`.
- The closing delimiter is searched from the body start. When the body ends
  with a backtick, the closing delimiter is found one character early and
  that backtick is lost. `TrailingBacktickIsLost` shows this. The round-trip
  lemmas therefore require a body that contains no delimiter and does not
  end with a backtick (`Closable`).
- The termination override looks only at the content of the last message.
  It ignores the author's role and name. The iteration cap and the filter
  on the agents belong to the framework's base class.

## Model

| member | source | states |
|---|---|---|
| Strings.IndexOf | LearningApp/JsonResultTranslator.cs:81 | The result is -1 exactly when no occurrence starts at or after `from`. Otherwise it is the least such occurrence. |
| Strings.Substring | LearningApp/JsonResultTranslator.cs:104 | Succeeds exactly when `start + length` is within the string, and then copies those characters. Otherwise it throws ArgumentOutOfRange. |
| Strings.ContainsIff | LearningApp/AgentsGroupChatExecutor.cs:147 | `Contains` holds exactly when the pattern occurs at some position. |
| Strings.Equals | LearningApp/JsonResultTranslator.cs:91 | Under `Ordinal`, two strings are equal exactly when they are identical. Under `OrdinalIgnoreCase`, they are equal exactly when they are identical once both are lowered. |
| Strings.IsWhiteSpace | LearningApp/JsonResultTranslator.cs:68 | Accepts exactly the 25 characters of `char.IsWhiteSpace`: U+0009 to U+000D, U+0020, U+0085, U+00A0, U+1680, U+2000 to U+200A, U+2028, U+2029, U+202F, U+205F and U+3000. None of them is a letter or a backtick. |
| Strings.IsNullOrWhiteSpace | LearningApp/AgentsGroupChatExecutor.cs:112 | Holds exactly for null and for a string that trimming its leading white space leaves empty. |
| Strings.TrimStartEmpty | LearningApp/JsonResultTranslator.cs:68 | Trimming leaves nothing exactly when every character is white space. |
| Strings.IgnoreCaseIrrelevant | LearningApp/JsonResultTranslator.cs:97 | For a pattern without letters, such as the delimiter, the OrdinalIgnoreCase search finds the same index as the ordinal one. |
| JsonResultTranslator.ExtractJson | LearningApp/JsonResultTranslator.cs:78-105 | A reply without a delimiter is returned whole. It throws ArgumentOutOfRange exactly when fewer than four characters follow the first delimiter. The output is never longer than the reply. |
| JsonResultTranslator.Translate | LearningApp/JsonResultTranslator.cs:66-76 | A null, empty or white-space reply yields null without being parsed. A too-short fence throws. A reply without a fence goes to the deserialiser unchanged. |
| JsonResultTranslator.ExtractJsonFencedSlice | LearningApp/JsonResultTranslator.cs:88-104 | For a fenced reply, the output is the slice from the body start (after the delimiter and the optional tag) to the next delimiter or the end. No delimiter starts inside it. |
| JsonResultTranslator.ExtractJsonFenceFree | LearningApp/JsonResultTranslator.cs:81-104 | The extracted text never contains a delimiter. |
| JsonResultTranslator.ExtractJsonIdempotent | LearningApp/JsonResultTranslator.cs:81-104 | Extracting again from an extracted text returns it unchanged. |
| JsonResultTranslator.ExtractJsonIsInfix | LearningApp/JsonResultTranslator.cs:78-105 | The extracted text is a contiguous part of the reply. |
| JsonResultTranslator.RoundTripTagged | LearningApp/JsonResultTranslator.cs:88-104 | `lead` + "```" + a "json" tag in any case + body + "```" + trail extracts exactly the body, given a lead and a body that cannot close early. |
| JsonResultTranslator.RoundTripUntagged | LearningApp/JsonResultTranslator.cs:88-104 | The same round trip without a tag holds for a non-empty body that does not itself start with "json". |
| JsonResultTranslator.UnclosedRunsToEnd | LearningApp/JsonResultTranslator.cs:97-104 | A block that is never closed extracts everything after its tag up to the end of the reply. |
| JsonResultTranslator.TagCaseInsensitive | LearningApp/JsonResultTranslator.cs:91-94 | Replies that differ only in the letter case of the "json" tag extract the same text. |
| JsonResultTranslator.ShortTailThrows | LearningApp/JsonResultTranslator.cs:91 | A bare "```", "```{}" and a reply whose first delimiter is followed by only three backticks all throw ArgumentOutOfRange. |
| JsonResultTranslator.TrailingBacktickIsLost | LearningApp/JsonResultTranslator.cs:97-104 | A body that ends with a backtick loses it: "```jsona`````" extracts "a". |
| JsonResultTranslator.TranslateFenced | LearningApp/JsonResultTranslator.cs:66-76 | A fenced reply is deserialised from exactly its body. |
| AgentsGroupChat.SelectedAgent | LearningApp/AgentsGroupChatExecutor.cs:112-114 | The answer's name when it is present and not blank, otherwise the coordinator. The choice is never blank. |
| AgentsGroupChat.ResultParser | LearningApp/AgentsGroupChatExecutor.cs:108-118 | Every selected name is non-blank. A blank reply selects the coordinator. The parser throws exactly when the translation throws, and it throws the same exception. |
| AgentsGroupChat.NamedAgentSelected | LearningApp/AgentsGroupChatExecutor.cs:111-117 | An answer with a non-blank name selects exactly that name. |
| AgentsGroupChat.FallbackToCoordinator | LearningApp/AgentsGroupChatExecutor.cs:112-114 | A null answer, or a missing or blank name, selects the coordinator. |
| AgentsGroupChat.ParseErrorPropagates | LearningApp/AgentsGroupChatExecutor.cs:111 | A deserialiser exception leaves the parser as the same exception. |
| AgentsGroupChat.ReasonIgnored | LearningApp/AgentsGroupChatExecutor.cs:113-117 | Two deserialisers that agree on the name and the exception produce the same selection. The reason never matters. |
| AgentsGroupChat.ParticipantNames | LearningApp/AgentsGroupChatExecutor.cs:20-37 | The three participant names are distinct, and the fallback is one of the participants. |
| AgentsGroupChat.FencedReplySelectsNamedAgent | LearningApp/AgentsGroupChatExecutor.cs:108-118 | A "```json" block on lines of its own selects the agent the answer names. The deserialiser sees the JSON with its surrounding line breaks. |
| AgentsGroupChat.EmptyReplySelectsCoordinator | LearningApp/AgentsGroupChatExecutor.cs:111-114 | A null or empty reply selects the coordinator and throws nothing. |
| AgentsGroupChat.ShouldAgentTerminate | LearningApp/AgentsGroupChatExecutor.cs:143-149 | The chat ends exactly when the last message has content containing the goal phrase, ignoring case. |
| AgentsGroupChat.NullContentNeverTerminates | LearningApp/AgentsGroupChatExecutor.cs:147 | A last message without content never ends the chat. |
| AgentsGroupChat.OnlyLastContentMatters | LearningApp/AgentsGroupChatExecutor.cs:147 | Two histories whose last contents are equal decide alike, whatever the earlier messages, roles and authors. |
| AgentsGroupChat.GoalPhraseTerminates | LearningApp/AgentsGroupChatExecutor.cs:145-147 | The phrase in any letter case, anywhere in the last message, ends the chat. |
| AgentsGroupChat.TerminationIgnoresCase | LearningApp/AgentsGroupChatExecutor.cs:147 | Last messages that differ only in letter case decide alike. |
| AgentsGroupChat.TerminationScenario | LearningApp/AgentsGroupChatExecutor.cs:33 | A closing message that includes the phrase, as the coordinator is instructed to write, ends the chat. |
| AgentsGroupChat.TruncatedPhraseDoesNotTerminate | LearningApp/AgentsGroupChatExecutor.cs:147 | A message holding the phrase with its last letter cut off does not end the chat. |

## Left out

- The JSON deserialiser (`JsonSerializer.Deserialize`) is a function parameter. It returns an answer, a JSON null, or `JsonException`. Property-name matching and the JSON grammar are not modelled.
- Case-insensitive comparison folds ASCII letters only. .NET's OrdinalIgnoreCase also folds non-ASCII letters, which matters neither for the delimiter nor for the tag `json` nor for `GOAL_IS_ACHIEVED` when the reply is ASCII.
- AgentsGroupChat.ShouldAgentTerminate requires a non-empty history. The source indexes the last message and would throw on an empty one. The framework never passes an empty history.
- The `agent` parameter, the cancellation token and the `Task` wrapper of `ShouldAgentTerminateAsync` are left out. The source ignores the first two, and the third is an asynchronous wrapper with no logic of its own.
- The iteration cap (111), `AutomaticReset` and the `Agents` filter of the termination strategy are left out. They are enforced by the framework's base class, which is not part of this model.
- The `reason` value and the console lines that report the reason and the selected agent are left out. The reason is computed only for logging; `ReasonIgnored` states that it does not affect the choice.
- Building the kernels and agents, reading the environment and console input, the selection prompt, `InvokeAsync`, the menu, the demo application, the constants file and the Azure plugins are left out. They are I/O or calls into framework and cloud services.
- Strings.String: a string is a sequence of Unicode scalar values, while .NET `Length`, `Substring` and `IndexOf` count UTF-16 code units. A character outside the Basic Multilingual Plane therefore has length 1 here and 2 in .NET, and unpaired surrogates cannot be represented. This changes the throw condition of `ExtractJson`. For "```" followed by two emoji, .NET reads a four-unit tag and returns the two emoji, so the deserialiser throws `JsonException`. The model sees only two characters after the delimiter and returns `Err(ArgumentOutOfRange)`.
- `result.GetValue<string>()` is modelled as the reply text itself, possibly null.
