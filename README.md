# LinkedIn-Agents-Challenge: a Dafny model of its local logic

This project models the parts of the agents demo that are computed locally
rather than delegated to a language model or a remote API:

- **Scripted-step engine** (`script.dfy`, `step.dfy`, `validator.dfy`, `values.dfy`, `numbers.dfy`).
  - A `Script` object holds a fixed list of `Step`s, a cursor and the answers collected so far.
  - The class `ScriptEngine.Script` has the fields `steps`, `index` and `values`.
  - Its `Assign` method parses a raw reply against the step's type and runs the step's `Range`, `Regex` and `OneOf` validators in order. It then either stores the value and moves the cursor on by one, or changes nothing and says why.
  - `Assign` is proved against the state function `ScriptEngine.AssignStep`. The engine's properties are proved about that function: monotone progress, `0 <= index <= |steps|`, completion after one confirmation per step, and the collected answers always being accepted ones.
- **Pool-quotation agent** (`pool_quotation.dfy`): the three-step script `get_script` builds, the price `length * width * 520`, and scenario lemmas about the script.
- **Agent-configuration helpers** (`agent_manager.dfy`):
  - listing agent names;
  - looking up the first agent with a given name;
  - listing the API keys an agent needs that are missing.
- **Calculator tool** (`calculations.dfy`): four operators over exact reals. Its two exceptions are result values.
- **Git analyser** (`git_analyser.dfy`): `get_repo_name`.
  - The regular-expression search `(?<=/)[^/]+(?=\.git$)` is modelled the way the engine runs it.
  - It is proved equal to a declarative description: the run between the last '/' and the final `.git`.
- **Google-Docs agent** (`google_docs.dfy`): the routing test in `chat`, and the loop in `_insert_conversation` that builds the `insertText` requests.
- **Custom agent** (`custom_agent.dfy`):
  - `extract_response_parts`, with both code patterns and the "thon" repair, modelled the way the regex engine backtracks;
  - the keyword dispatch of `mock_input`;
  - the nested loop of `get_tool_descriptions`.
- **Shared modules**:
  - `Text` models the Python `str` operations used: `strip`, `lower`/`upper`, `find`, `in` and `join`.
  - `Wrappers` holds the Option type that stands for Python's `None`.

Exceptions that the source lets propagate are values in the model:

- `Calculations.Result.Raised`;
- `ScriptEngine.Reply.Raised`, for the `TypeError` that `Range` raises when it has to order a string against a number;
- `Validators.Outcome.TypeError`.

Numbers are exact: `int` for Python ints, and normalised decimals for floats. A decimal is read as a `real` for comparisons and printed the way `str(float)` prints it ("5.0", "12.5").

The model follows the code in these places, which are easy to misread:

- A failed validator's reply is "❌ " followed by the message, not the bare message (core/script_engine/script.py:35).
- `Range` on a string against a numeric bound raises `TypeError` out of `assign`. This is modelled as the reply `Raised`, not a returned string (core/script_engine/validator.py:15-17).
- `values[step.var] = parsed` overwrites an earlier answer if two steps share a variable name. The invariant about collected answers is therefore stated under `ScriptEngine.DistinctVariables`, and `PoolQuotation.PoolStepsDistinct` proves it for the pool script.

## Model

| member | source | states |
|---|---|---|
| Steps.NewStep | core/script_engine/step.py:2-6 | prompt, variable and type are stored as given; a missing validator list becomes `[]`, a given one (the empty list included) is kept as is |
| Values.Less | core/script_engine/validator.py:15-17 | `<` between two numbers (bool, int, float mixed) compares their values; between a string and a number there is no answer (Python raises `TypeError`) |
| Validators.ShowAll | core/script_engine/validator.py:34 | `map(str, choices)`: one text per choice, in order, each `str` of that choice |
| Validators.Validate | core/script_engine/validator.py:14-34 | only `Range` can raise |
| Validators.RangeOnNumbers | core/script_engine/validator.py:14-19 | on numbers, `Range` passes iff the value is at least `min` (when given) and at most `max` (when given), both bounds inclusive |
| Validators.RangeLowerFirst | core/script_engine/validator.py:15-16 | below `min` the answer is "Value must be ≥ {min}", whatever `max` says |
| Validators.RangeAboveMax | core/script_engine/validator.py:17-18 | within `min` but above `max` the answer is "Value must be ≤ {max}" |
| Validators.RangeUnbounded | core/script_engine/validator.py:9-19 | `Range()` accepts every value, strings included, with `(True, "")` |
| Validators.RangeValidate | core/script_engine/validator.py:14-19 | `Range.validate` raises only when a present bound and the value are not both numbers or both strings; a verdict passes exactly when its message is empty |
| Validators.CompilePattern | core/script_engine/validator.py:23 | the empty text compiles to no pieces; a compiled pattern has no more pieces than its text has characters |
| Validators.CompilePatternText | core/script_engine/validator.py:23 | every pattern of the supported kind, written out with its metacharacters escaped, compiles back to itself |
| Validators.RangePassMessage | core/script_engine/validator.py:19 | a passing `Range` answers the empty message |
| Validators.RangeRaises | core/script_engine/validator.py:15-18 | when every present bound is of the value's kind (number or string), `Range` does not raise |
| Validators.EmailRegexVerdict | core/script_engine/validator.py:21-27 | the e-mail step's `Regex` passes a reply iff it is one line holding some text, an '@', some text, a '.' and some text; its message is always the default "Invalid format" |
| Validators.OneOrMoreMatch | core/script_engine/validator.py:27 | `a+` then the rest of a pattern fully matches iff a non-empty run of `a` is followed by a full match of the rest |
| Validators.CompileEmailPattern | agents/CrewAgents/d7_pool_quotation_agent.py:25 | the pattern text `.+@.+\..+` compiles to any-run, '@', any-run, '.', any-run |
| Validators.EmailFullMatch | core/script_engine/validator.py:27 | `fullmatch(".+@.+\..+", s)` holds iff `s` is one line with an '@' and a later '.', each with at least one character on both sides |
| Validators.EmailExamples | agents/CrewAgents/d7_pool_quotation_agent.py:25 | "a@b.co" matches; "a@b" and "" do not |
| Validators.RegexNotPrefix | core/script_engine/validator.py:27 | a text that begins with a match but goes on past it (here onto a second line) does not match |
| Validators.OneOfSameType | core/script_engine/validator.py:33-34 | when the value and every choice have one type, `value in choices` is plain membership |
| Validators.OneOfRefusal | core/script_engine/validator.py:34 | "blue" is refused by the choices "red" and 2, with the message "Must be one of: red, 2" |
| Values.SameTypeEq | core/script_engine/validator.py:34 | between two values of one type, Python's `==` holds iff they are the same value (a float has one normalized form) |
| Numbers.NormalizedUnique | core/script_engine/validator.py:34 | two normalized decimals with the same value are the same decimal |
| Validators.OneOfBoolIsInt | core/script_engine/validator.py:34 | `True` is among `[1, 2]` (Python's `True == 1`); the number 1 is not among `["1"]` |
| Numbers.NatToString | core/script_engine/script.py:39 | `str(n)` is a non-empty digit string without a leading zero that denotes `n` |
| Numbers.ParseInt | core/script_engine/script.py:19 | `int(s)` succeeds iff `s` is a non-empty digit string, optionally after one '+' or '-'; the value is the digits' value, negated after a '-' |
| Numbers.ShowDecimal | core/script_engine/script.py:39 | `str(x)` has at least three characters ("5.0") and begins with '-' iff `x` is negative |
| Values.Show | core/script_engine/script.py:39 | `str(v)` of an int reads back through `int()` as that int, and of a float through `float()` as that float |
| Numbers.ParseIntOfIntToString | core/script_engine/script.py:19 | `int(str(i)) == i` for every integer |
| Numbers.ParseDecimal | core/script_engine/script.py:19 | `float(s)` succeeds exactly on the decimal texts, and its value is the one the digits denote |
| Numbers.ParseDecimalOfDigits | core/script_engine/script.py:19 | a plain digit string reads as the float with that integer value |
| Numbers.ParseDecimalOfNonNumeric | core/script_engine/script.py:19-21 | in the modelled decimal subset, text that starts with neither a digit, a sign nor a point is not a float |
| Numbers.ParseDecimalOfShowDecimal | core/script_engine/script.py:19 | `float(str(x)) == x` for every float |
| ScriptEngine.Parse | core/script_engine/script.py:15-21 | a parsed value has the step's type; only int and float parsing can fail |
| ScriptEngine.ParseBool | core/script_engine/script.py:17-18 | a boolean reply never fails: "yes", "true", "1" or "oui" in any letter case give `True`, anything else `False` |
| ScriptEngine.ParseStr | core/script_engine/script.py:19 | a text reply is kept exactly, the empty one included |
| ScriptEngine.ParseShow | core/script_engine/script.py:19 | for every value, parsing what `str` prints back at its own type gives that value |
| ScriptEngine.FirstFailurePassed | core/script_engine/script.py:32-35 | the validator loop runs to its end iff every validator passes |
| ScriptEngine.FirstFailureDecides | core/script_engine/script.py:32-35 | otherwise its answer is that of the first validator that does not pass; later ones are not consulted |
| ScriptEngine.CurrentStepAt | core/script_engine/script.py:10-13 | no step iff the cursor is at or past the end, else the step at the cursor |
| ScriptEngine.PromptAt | core/script_engine/script.py:41-45 | the current step's prompt, or the completion sentinel once complete |
| ScriptEngine.AssignStep | core/script_engine/script.py:23-39 | `assign` either changes nothing, or stores an answer under the current step's variable, keeps every other answer and moves the cursor to the next step |
| ScriptEngine.AssignWhenComplete | core/script_engine/script.py:24-26 | on a completed script `assign` answers the sentinel and changes nothing |
| ScriptEngine.AssignParseFailure | core/script_engine/script.py:28-30 | a reply that does not parse gets "❌ Expected a {type}." and changes nothing; this happens only for int and float steps |
| ScriptEngine.AssignRefused | core/script_engine/script.py:32-35 | a reply refused by a validator gets "❌ " and that validator's message, and changes nothing |
| ScriptEngine.AssignRejected | core/script_engine/script.py:32-35 | when some validator does not pass, the state is unchanged and the reply is that of the first one that does not pass (its message, or the exception it raises) |
| ScriptEngine.AssignAccepted | core/script_engine/script.py:37-39 | an accepted reply stores the value under the step's name only, moves the cursor by exactly one, and answers "Added: {var} = {value}" |
| ScriptEngine.AssignProgress | core/script_engine/script.py:23-39 | the cursor never moves back or past the end; it moves, by one, iff the reply is a confirmation, and otherwise nothing changes |
| ScriptEngine.AssignAdvances | core/script_engine/script.py:23-39 | the cursor moves iff there is a current step and the reply parses to a value of which every validator approves |
| ScriptEngine.AssignEmptyText | core/script_engine/script.py:19-39 | a text step without validators accepts the empty reply |
| ScriptEngine.FreshCollected | core/script_engine/script.py:5-8 | a fresh script has collected exactly nothing |
| ScriptEngine.AssignKeepsCollected | core/script_engine/script.py:37-38 | with distinct variable names, after any `assign` exactly the steps before the cursor have answers, each accepted by its step |
| ScriptEngine.StoreKeepsCollected | core/script_engine/script.py:37-38 | storing an accepted answer for the current step and moving on keeps that invariant |
| ScriptEngine.Run | core/script_engine/script.py:23-39 | over any sequence of replies the cursor never moves back and never passes the end, and no answer is dropped |
| ScriptEngine.RunProgress | core/script_engine/script.py:23-39 | over any sequence of replies the cursor moves forward by one per confirmation and stays within the steps |
| ScriptEngine.RunCompletes | core/script_engine/script.py:10-13 | after as many confirmations as there are steps, there is no current step and the prompt is the sentinel |
| ScriptEngine.RunKeepsCollected | core/script_engine/script.py:23-39 | the collected-answers invariant holds after any sequence of replies |
| ScriptEngine.Script.constructor | core/script_engine/script.py:5-8 | a new script is at index 0 with no values |
| ScriptEngine.Script.CurrentStep | core/script_engine/script.py:10-13 | `current_step()` is a read: no step iff `index >= len(steps)`, else `steps[index]` |
| ScriptEngine.Script.NextPrompt | core/script_engine/script.py:41-45 | `next_prompt()` is a read giving the current prompt or the sentinel, so two calls in a row agree |
| ScriptEngine.Script.Assign | core/script_engine/script.py:23-39 | the reply and the new `index`/`values` are those of `AssignStep` on the old state; the object invariant is kept |
| PoolQuotation.GetScript | agents/CrewAgents/d7_pool_quotation_agent.py:18-26 | a new script over the three steps length (float, Range(1, 15)), width (float, Range(1, 10)) and email (str, the e-mail pattern), at index 0 |
| PoolQuotation.EmailStepPattern | agents/CrewAgents/d7_pool_quotation_agent.py:25 | the e-mail step's pattern is the compiled text `.+@.+\..+` |
| PoolQuotation.PoolPrice | agents/CrewAgents/d7_pool_quotation_agent.py:58 | the price of non-negative dimensions is non-negative |
| PoolQuotation.PoolPriceMonotone | agents/CrewAgents/d7_pool_quotation_agent.py:58 | the price grows with either dimension |
| PoolQuotation.PoolStepsDistinct | agents/CrewAgents/d7_pool_quotation_agent.py:22-26 | the three steps store under distinct names |
| PoolQuotation.LengthAccepted | agents/CrewAgents/d7_pool_quotation_agent.py:23 | a length reply is accepted iff it reads as a float between 1 and 15 inclusive |
| PoolQuotation.LengthBounds | agents/CrewAgents/d7_pool_quotation_agent.py:23 | 1 and 15 pass the length's range; 0.999 and 15.001 do not |
| PoolQuotation.CollectedPrice | agents/CrewAgents/d7_pool_quotation_agent.py:23-58 | once both dimensions are collected they are floats in range, so the price lies between 520 and 78000 |
| PoolQuotation.LengthTooLong | agents/CrewAgents/d7_pool_quotation_agent.py:23 | "20" as the first answer gives "❌ Value must be ≤ 15" and the script stays at index 0 |
| PoolQuotation.LengthFive | agents/CrewAgents/d7_pool_quotation_agent.py:23 | "5" as the first answer gives "Added: length = 5.0" and index 1 |
| PoolQuotation.LengthNotANumber | agents/CrewAgents/d7_pool_quotation_agent.py:23 | "abc" as the first answer gives "❌ Expected a float." and changes nothing |
| PoolQuotation.WidthFour | agents/CrewAgents/d7_pool_quotation_agent.py:24 | "4" at the width step is stored and the cursor moves to the e-mail step |
| PoolQuotation.EmailGiven | agents/CrewAgents/d7_pool_quotation_agent.py:25 | "a@b.co" at the e-mail step is stored and the script completes |
| PoolQuotation.FullRun | agents/CrewAgents/d7_pool_quotation_agent.py:22-26 | "5", "4", "a@b.co" collect all three answers, and the prompt becomes the completion sentinel |
| AgentManager.AgentNames | core/agent_manager.py:38 | one name per agent entry, in order; no `agents` key means no entries |
| AgentManager.FirstNamed | core/agent_manager.py:52 | an entry found carries the name asked for |
| AgentManager.FirstNamedSpec | core/agent_manager.py:52 | nothing is found iff no entry has the name; otherwise the entry found is at the first index with that name |
| AgentManager.AgentInfoFor | core/agent_manager.py:52 | `get_agent_info` returns a listed entry with the name asked for, and `None` iff no entry has it |
| AgentManager.AgentInfoIffListed | core/agent_manager.py:38-52 | `get_agent_info` finds an agent iff its name is among `get_agent_names` |
| AgentManager.FirstMatchWins | core/agent_manager.py:52 | when entry i is the first with the name and a later entry j has it too, entry i is returned |
| AgentManager.MissingAgentsKey | core/agent_manager.py:38-52 | without an `agents` key: no names and no agent |
| AgentManager.RequiredKeys | core/agent_manager.py:66-68 | an absent `requires` is `[]`, a bare string a one-key list, a list itself |
| AgentManager.MissingKeys | core/agent_manager.py:70 | every key reported is a required key that is absent or empty |
| AgentManager.MissingKeysMembers | core/agent_manager.py:70 | a required key is reported iff it is absent or maps to "" |
| AgentManager.MissingKeysConcat | core/agent_manager.py:70 | the filter distributes over concatenation of the required lists |
| AgentManager.MissingKeysSubsequence | core/agent_manager.py:70 | the report is a subsequence of the required keys, in their order |
| AgentManager.MissingKeysExtremes | core/agent_manager.py:70 | with every key present and non-empty nothing is reported; with no keys at all everything is |
| AgentManager.CheckRequiredApis | core/agent_manager.py:66-70 | `check_required_apis` reports exactly the required keys that are absent or empty |
| AgentManager.CheckRequiredShapes | core/agent_manager.py:66-70 | no `requires` means nothing missing; a bare key is checked like a one-key list |
| AgentManager.EmptyValueIsMissing | core/agent_manager.py:70 | a key present with the empty value is reported as missing |
| Calculations.RaiseZeroDivision | CrewAgents/calculations_agent.py:58-60 | raises `ZeroDivisionError("Cannot divide by zero.")` |
| Calculations.Calculate | CrewAgents/calculations_agent.py:46-56 | "add", "subtract" and "multiply" give `a + b`, `a - b` and `a * b`, and "divide" by a non-zero `b` gives `a / b`; `ValueError` (naming the operator and the four valid ones) iff the operator is not one of the four exact names; `ZeroDivisionError` iff dividing by zero |
| Calculations.AddSubtractInverse | CrewAgents/calculations_agent.py:48-49 | subtracting `b` undoes adding it, and the other way round |
| Calculations.MultiplyDivideInverse | CrewAgents/calculations_agent.py:50-51 | for `b != 0`, dividing by `b` undoes multiplying by it, and the other way round |
| Calculations.Commutes | CrewAgents/calculations_agent.py:48-50 | add and multiply do not depend on operand order |
| Calculations.OperatorCaseSensitive | CrewAgents/calculations_agent.py:54-55 | "Add", "DIVIDE" and "" are unsupported operators |
| Calculations.DivideExamples | CrewAgents/calculations_agent.py:31-35 | 10 / 5 is 2, 5 + 2 is 7, dividing by zero raises |
| GitAnalyser.RunEnd | agents/CrewAgents/d6_git_analyser_agent.py:150 | the greedy `[^/]+` reaches up to the next '/' or the end |
| GitAnalyser.Backtrack | agents/CrewAgents/d6_git_analyser_agent.py:150 | backtracking finds the longest run end at which `(?=\.git$)` holds |
| GitAnalyser.SearchFrom | agents/CrewAgents/d6_git_analyser_agent.py:151 | the search result is a start at which a match starts |
| GitAnalyser.GetRepoName | agents/CrewAgents/d6_git_analyser_agent.py:150-155 | a name returned is non-empty and holds no '/'; RepoNameSpec characterises it fully |
| GitAnalyser.GitEndUnique | agents/CrewAgents/d6_git_analyser_agent.py:150 | `(?=\.git$)` holds at one position at most |
| GitAnalyser.NameUnique | agents/CrewAgents/d6_git_analyser_agent.py:150 | a URL holds one name at most |
| GitAnalyser.MatchIsName | agents/CrewAgents/d6_git_analyser_agent.py:150 | whatever matches is a name |
| GitAnalyser.NameMatches | agents/CrewAgents/d6_git_analyser_agent.py:150 | at the start of a name, the match is that name |
| GitAnalyser.SearchFindsName | agents/CrewAgents/d6_git_analyser_agent.py:151 | the leftmost search finds the name |
| GitAnalyser.RepoNameSpec | agents/CrewAgents/d6_git_analyser_agent.py:150-155 | a name is returned iff the URL holds one: a non-empty run after a '/', without '/', followed by the final `.git` (optionally then a newline); the one returned is that run |
| GitAnalyser.RepoNameShape | agents/CrewAgents/d6_git_analyser_agent.py:150-153 | a name returned is non-empty, holds no '/', and the URL is some prefix, '/', the name and `.git` (or `.git` and a newline) |
| GitAnalyser.NameShape | agents/CrewAgents/d6_git_analyser_agent.py:150 | the same, for any name in a URL |
| GitAnalyser.NoGitSuffix | agents/CrewAgents/d6_git_analyser_agent.py:150-155 | a URL not ending in `.git` (or `.git` and a newline) has no name |
| GitAnalyser.NoSlashNoName | agents/CrewAgents/d6_git_analyser_agent.py:150-155 | a URL without '/' has no name |
| GitAnalyser.SlashBeforeSuffix | agents/CrewAgents/d6_git_analyser_agent.py:150-155 | a '/' right before the final `.git` leaves no name |
| GitAnalyser.GithubExample | agents/CrewAgents/d6_git_analyser_agent.py:150-153 | "https://github.com/u/repo.git" names "repo" |
| GitAnalyser.DoubleSuffixExample | agents/CrewAgents/d6_git_analyser_agent.py:150 | "https://h/x.git.git" names "x.git": only one `.git` goes |
| GitAnalyser.NoSlashExample | agents/CrewAgents/d6_git_analyser_agent.py:150-155 | "repo.git" has no name |
| GitAnalyser.EmptyNameExample | agents/CrewAgents/d6_git_analyser_agent.py:150-155 | "x/.git" has no name |
| GitAnalyser.NoSuffixExample | agents/CrewAgents/d6_git_analyser_agent.py:150-155 | "https://github.com/u/repo" has no name |
| GoogleDocs.ChatRoute | CrewAgents/d5_google_docs_agent.py:59-61 | the save path is taken iff the stripped, lower-cased message is "save conversation as document" |
| GoogleDocs.SaveIgnoresPaddingAndCase | CrewAgents/d5_google_docs_agent.py:59 | the phrase in any letter case, between any whitespace, saves |
| GoogleDocs.SaveOnlyForPhrase | CrewAgents/d5_google_docs_agent.py:59 | a saving message is the phrase in some letter case with only whitespace around it |
| GoogleDocs.RouteSaveExample | CrewAgents/d5_google_docs_agent.py:59 | "  Save Conversation As Document\n" saves |
| GoogleDocs.RouteShortExample | CrewAgents/d5_google_docs_agent.py:59-61 | "save conversation" delegates |
| GoogleDocs.RouteWordyExample | CrewAgents/d5_google_docs_agent.py:59-61 | words around the phrase make the message delegate |
| GoogleDocs.EntryText | CrewAgents/d5_google_docs_agent.py:76 | a line is the role upper-cased, ": ", the content and a newline |
| GoogleDocs.Transcript | CrewAgents/d5_google_docs_agent.py:75-76 | the text the document should hold is empty iff there are no messages, and otherwise ends with a newline |
| GoogleDocs.TranscriptStep | CrewAgents/d5_google_docs_agent.py:75-76 | the transcript grows by one line per message |
| GoogleDocs.CodePointRequests | CrewAgents/d5_google_docs_agent.py:73-83 | one request per message |
| GoogleDocs.InsertRequests | CrewAgents/d5_google_docs_agent.py:70-83 | the loop builds one request per message, each at 1 plus the length of the transcript before it |
| GoogleDocs.CodePointRequestsShape | CrewAgents/d5_google_docs_agent.py:74-83 | requests in message order with each message's line as text; the first at index 1, each later one at the previous index plus the previous text's length |
| GoogleDocs.NoMessagesNoRequests | CrewAgents/d5_google_docs_agent.py:73-75 | no messages, no requests |
| GoogleDocs.Utf16Concat | CrewAgents/d5_google_docs_agent.py:83 | UTF-16 encoding distributes over concatenation |
| GoogleDocs.Utf16LengthInBmp | CrewAgents/d5_google_docs_agent.py:83 | text within the basic plane has one unit per code point |
| GoogleDocs.Utf16Requests | CrewAgents/d5_google_docs_agent.py:83 | the corrected requests: one per message, indices counted in UTF-16 units |
| GoogleDocs.Utf16RequestsWriteTranscript | CrewAgents/d5_google_docs_agent.py:73-88 | applied to an empty document, the corrected requests write the transcript exactly |
| GoogleDocs.CodePointRequestsInBmp | CrewAgents/d5_google_docs_agent.py:83 | when every code point of the transcript is in the basic plane, the requests as written are the correct ones |
| GoogleDocs.PrefixTranscript | CrewAgents/d5_google_docs_agent.py:75-76 | the transcript of a prefix of the messages is a prefix of the transcript |
| GoogleDocs.CodePointIndexMisplaces | CrewAgents/d5_google_docs_agent.py:83 | with an emoji in the first message, the requests as written put the second line before the first line's newline |
| CustomAgent.ThoughtStop | agents/Custom/d8_custom_agent.py:110 | the lazy `(.*?)` stops at the first position followed by "Code:" or by the end of the text |
| CustomAgent.Thought | agents/Custom/d8_custom_agent.py:110-111 | the thought is stripped, and is "" when there is no "Thought:" |
| CustomAgent.ThoughtSpec | agents/Custom/d8_custom_agent.py:110-111 | the thought is the text after the first "Thought:" up to the next "Code:", or to the end when none follows, stripped |
| CustomAgent.StopAtNextCode | agents/Custom/d8_custom_agent.py:110 | the thought's group ends at the next "Code:" |
| CustomAgent.StopAtEnd | agents/Custom/d8_custom_agent.py:110 | without a later "Code:", it ends at the end of the text or before a final newline |
| CustomAgent.LazyGroup | agents/Custom/d8_custom_agent.py:113 | the lazy code group ends at the first position where the closing group matches |
| CustomAgent.Descending | agents/Custom/d8_custom_agent.py:113 | a greedy `\s*` is tried from its longest extent down |
| CustomAgent.AfterFence | agents/Custom/d8_custom_agent.py:113 | the group starts after a fence are tried "py" first, then "python", then no language |
| CustomAgent.PrimaryStarts | agents/Custom/d8_custom_agent.py:113 | the primary pattern tries the optional fence group before skipping it |
| CustomAgent.GroupStarts | agents/Custom/d8_custom_agent.py:113-118 | every group start tried lies after the opener, and the last one is right after it |
| CustomAgent.FirstStart | agents/Custom/d8_custom_agent.py:113 | the first group start with which the lazy group closes |
| CustomAgent.MatchAt | agents/Custom/d8_custom_agent.py:113-118 | a match reported at `p` has the opener at `p` and a minimal group closed by the closing group |
| CustomAgent.FirstSuccess | agents/Custom/d8_custom_agent.py:114 | the first position whose attempt succeeds |
| CustomAgent.Search | agents/Custom/d8_custom_agent.py:114 | `re.search` reports the match at the leftmost start where one starts |
| CustomAgent.CodeMatch | agents/Custom/d8_custom_agent.py:113-119 | a code match's group and end lie within the response |
| CustomAgent.MatchAtIff | agents/Custom/d8_custom_agent.py:113-118 | a match starts at `p` iff the opener is there and the closing group matches somewhere after it |
| CustomAgent.SearchSpec | agents/Custom/d8_custom_agent.py:113-119 | a pattern matches iff some opener can be closed, and then the match starts at the first occurrence of the opener |
| CustomAgent.CodeSource | agents/Custom/d8_custom_agent.py:113-119 | the fallback is used only when no "Code:" can be closed; no code iff neither pattern can close |
| CustomAgent.CodeGroupLazy | agents/Custom/d8_custom_agent.py:113-118 | no closing group matches inside the code group |
| CustomAgent.DropThon | agents/Custom/d8_custom_agent.py:125-127 | the "thon" repair keeps stripped code stripped |
| CustomAgent.ExtractResponseParts | agents/Custom/d8_custom_agent.py:108-132 | thought and code come out stripped, and the remainder too whenever code was found, where it is the stripped text after the whole match; without a code match the code is "" and the remainder is the whole response |
| CustomAgent.PartsFrom | agents/Custom/d8_custom_agent.py:121-132 | the same, for any code match |
| CustomAgent.NoCodeMarkers | agents/Custom/d8_custom_agent.py:116-129 | with neither "Code:" nor a fence, the code is "" and the remainder is the whole response |
| CustomAgent.PythonFence | agents/Custom/d8_custom_agent.py:113-132 | for code that is non-empty, has no whitespace at either end, no backtick, no '/' and no line starting "End code", a block opened by "Code:\n```python" yields that code exactly (the "thon" left by "py" is dropped) and an empty remainder; the family excludes every backtick and '/' rather than only "```" and "/End code" so that no closing alternative can match inside the code |
| CustomAgent.PythonFenceMatch | agents/Custom/d8_custom_agent.py:113-114 | in such a block the primary pattern's group starts right after "```py" and the match ends at the closing fence |
| CustomAgent.ThonRepair | agents/Custom/d8_custom_agent.py:125-127 | for non-empty code with no whitespace at either end, stripping "thon\n" + code and dropping the "thon" gives the code back |
| CustomAgent.MockInput | agents/Custom/d8_custom_agent.py:170-179 | the answer for the first of "attendees", "date", "time", "topic" that the lower-cased prompt contains, else "Default mock response" |
| CustomAgent.MockInputIgnoresCase | agents/Custom/d8_custom_agent.py:170-176 | on an ASCII prompt, upper-casing it does not change the answer |
| CustomAgent.MockInputKeyword | agents/Custom/d8_custom_agent.py:170-173 | "attendees" anywhere wins; "Date" anywhere gives the attendees or the date answer |
| CustomAgent.ParamLines | agents/Custom/d8_custom_agent.py:49-51 | one line per parameter, in the properties' order |
| CustomAgent.ToolBlocks | agents/Custom/d8_custom_agent.py:45-52 | one block per tool, in the tools' order |
| CustomAgent.GetToolDescriptions | agents/Custom/d8_custom_agent.py:43-53 | the nested loop builds the tool blocks joined by "\n" |
| CustomAgent.ToolDescriptions | agents/Custom/d8_custom_agent.py:43-53 | no tools give "", one tool gives its block alone; ToolBlockPlaced places every block in order |
| CustomAgent.LabelIff | agents/Custom/d8_custom_agent.py:50-51 | a parameter's line says "Required" iff the parameter is in `required`, "Optional" iff it is not |
| CustomAgent.ToolBlockPlaced | agents/Custom/d8_custom_agent.py:52-53 | each tool's block appears in list order, one "\n" between neighbours and nothing after the last |
| CustomAgent.ParamLinePlaced | agents/Custom/d8_custom_agent.py:46-51 | within a block, each parameter's line appears after the header, in the properties' order |
| CustomAgent.NoRequiredKey | agents/Custom/d8_custom_agent.py:50 | a schema without `required` marks every parameter "Optional" |
| CustomAgent.AgentToolsAllRequired | agents/Custom/d8_custom_agent.py:202-247 | every parameter of the two tools is labelled "Required" |
| Text.StripStart | CrewAgents/d5_google_docs_agent.py:59 | `lstrip` removes a whitespace prefix and leaves no whitespace in front |
| Text.StripEnd | CrewAgents/d5_google_docs_agent.py:59 | `rstrip` removes a whitespace suffix and leaves no whitespace behind |
| Text.Strip | CrewAgents/d5_google_docs_agent.py:59 | `strip` cuts only whitespace, only from the ends, and leaves none at either end |
| Text.StripPadded | CrewAgents/d5_google_docs_agent.py:59 | whitespace around text without outer whitespace is exactly what `strip` removes |
| Text.StripTrailingSpace | agents/Custom/d8_custom_agent.py:111 | appending whitespace does not change `strip` |
| Text.Lower | core/script_engine/script.py:18 | each character lower-cased, in place |
| Text.LowerOfUpper | agents/Custom/d8_custom_agent.py:170 | for the ASCII case maps, lower-casing forgets an earlier upper-casing |
| Text.Find | agents/Custom/d8_custom_agent.py:110 | the first occurrence at or after the start, or none at all |
| Text.Contains | agents/Custom/d8_custom_agent.py:170 | `t in s` iff `t` occurs somewhere in `s` |
| Text.JoinSnoc | agents/Custom/d8_custom_agent.py:53 | appending a part appends the separator and the part |
| Text.JoinParts | agents/Custom/d8_custom_agent.py:53 | the joined text is the parts in order with the separator between neighbours and nothing else |

## Left out

- The language model, CrewAI, the Streamlit UI, OAuth, Google Drive and Docs calls (`_create_doc`, `batchUpdate`), `exec`, stdout redirection and the async agent loop are foreign calls or I/O, so they are not modelled.
- `mock_input`'s `print` is output only. It is left out; the answer it returns is modelled.
- `load_agents_config` and `load_agent_instance` read files, import modules and write environment variables, so they are not modelled.
- `agents/CrewAgents/scripted_agent.py` is glue around `Script` and is not part of this model.
- Text.Lower: ASCII case mapping only. For the fixed words compared after lower-casing (the affirmatives, the save phrase, the mock keywords) the verdicts still agree with Python's. The one non-ASCII code point Python lowers to a lone ASCII letter is U+212A, the Kelvin sign, which becomes 'k', and none of the words holds a 'k'. U+0130 lowers to 'i' followed by U+0307, and that combining mark keeps the result from equalling or containing any of the words.
- CustomAgent.MockInputIgnoresCase: stated for ASCII prompts only. Python's `upper` maps some non-ASCII letters to ASCII ones: "tıme" (with U+0131) gets the default answer, but its upper case "TIME" gets "14:00".
- Text.Upper: ASCII case mapping only. The role names upper-cased in the Docs transcript are taken letter by letter.
- ScriptEngine.Parse: `int()` is modelled on `[+-]?[0-9]+` and `float()` on `[+-]?([0-9]+(\.[0-9]*)?|\.[0-9]+)`. Surrounding whitespace, `_` separators, exponents, "inf" and "nan" are read as failures, though Python accepts them.
- Numbers.ParseDecimal: the same decimal subset of `float()`.
- Numbers.ParseInt: the same decimal subset of `int()`.
- Numbers.ShowDecimal: floats are exact decimals, not IEEE doubles, and `str(x)` is modelled in positional notation only. Python switches to scientific notation below 1e-4 and at 1e16 and above, and rounds to the shortest representation of the nearest double. Negative zero is not represented.
- Calculations.Calculate: exact real arithmetic. IEEE rounding, overflow to infinity and NaN are not modelled.
- PoolQuotation.PoolPrice: exact real arithmetic, not IEEE doubles.
- AgentManager.IsMissing: API-key values are strings. A `None` value, which Python also counts as missing, is not represented.
- AgentManager.AgentInfoFor: every entry is assumed to have a `name`. An entry without one makes Python raise `KeyError`, and that is not modelled.
- AgentManager.RequiredKeys: a `requires` value that is neither a string nor a list is not represented.
- Tool schemas: a tool's `properties` dictionary is an ordered sequence of parameters, following Python's insertion order. Duplicate keys are not ruled out.
- Validators.CompilePattern: only literals, `.`, `\` escapes and `+` are compiled. Other patterns give `None`, though `re.compile` would accept many of them. The only pattern the code uses is compiled.
- ScriptEngine.Script.Assign: the answers are a `map`, so the insertion order of the Python dictionary is not kept.
- GitAnalyser.GetRepoName: the search is modelled for the one pattern the code uses, not as a general regular-expression engine.
- CustomAgent.ExtractResponseParts: the two code patterns and the thought pattern are modelled as specific searches, not as a general regular-expression engine.

## Findings

| source | as written | input that shows it | evidently intended | confidence | as-written member | corrected member |
|---|---|---|---|---|---|---|
| CrewAgents/d5_google_docs_agent.py:83 | `index += len(text)` advances by code points, but the Docs API counts indices in UTF-16 code units | a first message whose content is one emoji outside the basic plane ("🎉"), followed by a second message: the second request's index is one unit short, so the second line lands before the first line's newline | advance the index by the UTF-16 length of the text, so the requests write the conversation in order | not executed | GoogleDocs.CodePointIndexMisplaces | GoogleDocs.Utf16RequestsWriteTranscript |
