# Drug-interaction pipeline, modelled in Dafny

This project models the interaction-inference pipeline of a medication-safety
dashboard. The pipeline takes a user's medication list and patient profile,
checks every unordered pair of medications, and collects the pairs it flags as
interaction records. It then draws those records as a network graph: one line
per drug pair, one labelled point per drug.

The repository has two versions of this pipeline, and both are modelled:

- `ai_integration_code.py` asks a text-generation service about each pair.
  - The prompt names the two drugs.
  - A layered heuristic reads the free-form answer as safe (`"+1"`),
    conflict (`"-1"`) or unknown (`"0"`). It checks for warning words, then
    counts the `+1` and `-1` markers, then looks for a standalone `1` with
    a regular expression.
  - Every conflicting pair gives a record with severity `high` and the
    description "Potential conflict detected".
  - The graph builder colours and weights each line by the record's
    severity.
- `dashboard.py` queries the DrugBank interactions endpoint for each pair.
  - It keeps the first listed interaction of every 200 response whose
    `interactions` list is non-empty.
  - Its graph builder draws every line with width 2 and a colour chosen by
    an if-chain on the severity.

Modules:

| module | file | what it holds |
|---|---|---|
| `Records` | `records.dfy` | `Option`, `Result`, the interaction record `(drug1, drug2, details)`, `dict.get`, the drawn figure |
| `Text` | `text.dfy` | Python's `in` on strings, non-overlapping `str.count`, `str.replace` of one character, the `\b1\b` search, `str(int)` |
| `Verdicts` | `verdicts.dfy` | the verdict parser of `check_drug_interaction` |
| `PairOrder` | `pairs.dfy` | the pairs `(i, j)`, `i < j`, in the order of the two nested `range` loops |
| `Runs` | `runs.dfy` | the shape shared by both pair loops: a list that grows by one record or none per turn and that an exception abandons |
| `NxGraph` | `nxgraph.dfy` | the part of `networkx.Graph` the builders use: `add_edge`, `nodes()` and `edges(data=True)` |
| `AiIntegration` | `ai_integration.dfy` | `get_model_response`, `check_drug_interaction`, and the pair loop of `check_drug_compatibility` |
| `AiGraph` | `ai_graph.dfy` | `create_interaction_graph` of `ai_integration_code.py` |
| `Dashboard` | `dashboard.dfy` | `check_drug_compatibility` of `dashboard.py` |
| `DashboardGraph` | `dashboard_graph.dfy` | `create_interaction_graph` of `dashboard.py` |

### How the outside world is represented

- Both HTTP services are function parameters. Each takes the 0-based index
  of the call within the run and the request sent, and returns the reply.
  The call index lets the service answer the same prompt differently
  each time.
- Each pair loop is a `method` whose `while` loop is the outer `range`
  loop. The inner `range` loop is the `while` loop of `CheckRow`, and one
  turn of it is `Visit`.
  - The loop is proved against `Runs.Run(Steps(...))`, which folds the
    per-pair outcomes in pair order.
  - A ghost out-parameter returns the requests the loop sent. Each entry
    is logged by the method that passes it to the service
    (`AiIntegration.PostPayload`, `Dashboard.CheckPair`). The contract says
    they are exactly the requests for the pairs visited, in order. A run
    that raises stops at the first pair whose turn raises: every earlier
    turn succeeded, and that pair's request is the last one logged.
- Python exceptions that escape a pair loop are the `Failure` of a
  `Result`:
  - `patient_info` has fewer than six entries (`IndexError`);
  - a 200 reply from the text service has no `"response"` key
    (`KeyError`), or its body is not JSON at all;
  - a 200 DrugBank body is not JSON, or is not a JSON object.
- `networkx.Graph` is the class `NxGraph.Graph`. Its fields `nodes` and
  `edges` are insertion-ordered sequences, and `AddEdge` updates them the
  way `add_edge` does.
  - Adding a pair that is already joined, in either order, replaces the
    edge's attributes in place. networkx merges the new attributes into
    the old ones. Both builders pass every attribute key on every call, so
    the result is the same.
  - The edge view lists each edge once. It goes through the nodes in
    insertion order and starts each edge at the endpoint that was inserted
    first.
- A figure is its line traces (ends, width, colour, hover text) and the
  labels of its node trace. The model does not carry coordinates.

### Behaviour of the code worth knowing

- The error text is parsed as a verdict. A non-200 reply from the text
  service becomes the text `Error: <status>, <body>`, and the verdict
  parser reads that text.
  - With an empty body this is unknown when the status has at least two
    digits (`EmptyErrorIsUnknown`).
  - A body that contains "conflict" anywhere flags the pair, for every
    status other than 200 (`ErrorBodyCanFlag`).
- The prompt names only the two drugs. The patient line is
  formatted, and its six fields are indexed, but the line is never sent
  (`VerdictIgnoresDosageAndProfile`).
- A short patient profile, or a 200 reply without `"response"`, ends the
  whole check with an exception.
- The standalone-`1` test uses a regular-expression word boundary. Letters
  glued to the `1` by the space removal hide it:
  `"+1 safe"` reads as unknown (`SpacesGlueWords`).
- The graph has one edge per drug pair, not per record. `networkx.Graph` keeps one
  edge per unordered pair, and a later record for the pair overwrites the
  earlier one's attributes (`AiGraph.FigureTraces`,
  `AiGraph.FigureCollapsesPairs`).

## Model

| member | source | states |
|---|---|---|
| `Text.Count` | ai_integration_code.py:126-127 | `str.count`: positive exactly when the pattern occurs; the empty pattern counts `len + 1` |
| `Text.CountBound` | ai_integration_code.py:126-127 | non-overlapping occurrences of a pattern never cover more than the text |
| `Text.CountMatchFirst` | ai_integration_code.py:126-127 | an occurrence at the start is counted once and the scan resumes after it |
| `Text.CountSkip` | ai_integration_code.py:126-127 | a prefix without the pattern's first character adds no occurrence |
| `Text.ShorterNeverContains` | ai_integration_code.py:129-133 | a text shorter than the pattern does not contain it |
| `Text.ContainsAt` | ai_integration_code.py:141 | a pattern found at some position is `in` the text |
| `Text.MissingCharNeverContains` | ai_integration_code.py:129-133 | a text lacking one of the pattern's characters does not contain it |
| `Text.ReplaceChar` | ai_integration_code.py:143 | `str.replace` of one character: same length, each occurrence replaced and every other character kept |
| `Text.ReplaceCharAppend` | ai_integration_code.py:143 | replacing a character distributes over concatenation |
| `Text.DeleteChar` | ai_integration_code.py:143 | `replace(c, '')` removes every `c` and keeps every other character's count |
| `Text.DeleteCharAppend` | ai_integration_code.py:143 | deleting a character distributes over concatenation |
| `Text.DeleteAbsentChar` | ai_integration_code.py:143 | deleting an absent character changes nothing |
| `Text.DigitChar` | ai_integration_code.py:25 | a digit value renders as a digit character |
| `Text.Decimal` | ai_integration_code.py:25 | `str(status)`: non-empty, all digits, no leading zero except for 0, two digits or more exactly when the status is at least 10 |
| `Text.DecimalRoundTrip` | ai_integration_code.py:25 | reading the decimal rendering back gives the number |
| `Verdicts.Squeeze` | ai_integration_code.py:143 | removing newlines and then spaces leaves neither |
| `Verdicts.SqueezeUnspaced` | ai_integration_code.py:143 | text without spaces or newlines is left unchanged |
| `Verdicts.SqueezeTrailingSpace` | ai_integration_code.py:143 | a trailing space is dropped from text with no other space or newline |
| `Verdicts.SqueezeAppend` | ai_integration_code.py:143 | the removal distributes over concatenation |
| `Verdicts.CodesDistinct` | ai_integration_code.py:130-146 | the three answers `"+1"`, `"-1"`, `"0"` are distinct, and only a conflict is `"-1"` |
| `Verdicts.ProseWarningWins` | ai_integration_code.py:129-133 | "not safe", "unsafe" or "conflict" in the answer means conflict, whatever the marker counts |
| `Verdicts.MajorityWhenBothMarkers` | ai_integration_code.py:135-142 | with both markers present, more `+1` than `-1` is safe, otherwise conflict |
| `Verdicts.SafeExactly` | ai_integration_code.py:126-146 | safe iff no warning word and either `+1` outnumbers a present `-1`, or `-1` is absent and the squeezed text has a standalone `1` |
| `Verdicts.ConflictExactly` | ai_integration_code.py:126-146 | conflict iff a warning word, or `-1` present and not outnumbered by `+1` |
| `Verdicts.UnknownExactly` | ai_integration_code.py:126-146 | unknown iff no warning word, no `-1`, and no standalone `1` in the squeezed text |
| `Verdicts.NoOneNoMatch` | ai_integration_code.py:143 | text without the digit 1 has no standalone `1` |
| `Verdicts.NoProseLetters` | ai_integration_code.py:129-133 | text without the letters n, u and c has no warning word |
| `Verdicts.UnknownFrom` | ai_integration_code.py:141-146 | no warning, no `-1` and no standalone `1` after squeezing gives unknown |
| `Verdicts.BarePlusOneIsSafe` | ai_integration_code.py:143-144 | the answer `"+1"` alone is safe through the regular-expression branch |
| `Verdicts.TwoPlusOneMinus` | ai_integration_code.py:135-136 | `"+1 +1 -1"` is safe by majority |
| `Verdicts.OnePlusTwoMinus` | ai_integration_code.py:138-139 | `"+1 -1 -1"` is a conflict by majority |
| `Verdicts.UnsafeProse` | ai_integration_code.py:129-130 | an answer saying "unsafe" is a conflict |
| `Verdicts.NoSignal` | ai_integration_code.py:145-146 | `"maybe"` is unknown |
| `Verdicts.SpacesGlueDigits` | ai_integration_code.py:143-146 | `"1 2"` squeezes to `"12"` and is unknown |
| `Verdicts.SpacesGlueWords` | ai_integration_code.py:143-146 | `"+1 safe"` squeezes to `"+1safe"`, whose `1` is not standalone, so it is unknown |
| `Verdicts.GluedHasNoStandaloneOne` | ai_integration_code.py:143 | `"+1safe"` has no standalone `1` |
| `AiIntegration.PostPayload` | ai_integration_code.py:13-25 | posts the payload it is given and logs exactly that payload; the only exception is a 200 reply without `"response"`, and any other status returns the error text |
| `AiIntegration.ErrorReplyIsParsed` | ai_integration_code.py:22-25 | a non-200 reply raises nothing: `Error: <status>, <body>` is parsed as the answer |
| `AiIntegration.EmptyErrorIsUnknown` | ai_integration_code.py:25 | an error reply with an empty body and a status of two digits or more reads as unknown |
| `AiIntegration.SqueezedErrorText` | ai_integration_code.py:25 | the error text loses exactly its two spaces when squeezed |
| `AiIntegration.DigitsHaveNoStandaloneOne` | ai_integration_code.py:25 | a status of two digits or more holds no standalone `1` |
| `AiIntegration.ErrorBodyCanFlag` | ai_integration_code.py:22-25 | any non-200 reply whose body contains "conflict" at some position flags the pair, whatever the dosages |
| `AiIntegration.PromptNamesBothDrugs` | ai_integration_code.py:102-111 | the prompt contains both drug names |
| `AiIntegration.VerdictIgnoresDosageAndProfile` | ai_integration_code.py:100-114 | with a six-field profile, the verdict depends on neither the dosages nor the profile |
| `AiIntegration.MinusOneIsConflict` | ai_integration_code.py:141-142 | the answer `"-1"` is a conflict |
| `AiIntegration.Steps` | ai_integration_code.py:151-158 | one outcome per pair |
| `AiIntegration.Requests` | ai_integration_code.py:151-155 | one request for each of the first `c` pairs |
| `AiIntegration.RequestsNext` | ai_integration_code.py:151-155 | the next request is for the next pair in loop order |
| `AiIntegration.RequestAt` | ai_integration_code.py:151-155 | request `k` names the drugs of pair `k` |
| `AiIntegration.RequestsCount` | ai_integration_code.py:151-152 | a completed run posts `n(n-1)/2` requests |
| `AiIntegration.RequestsPerPair` | ai_integration_code.py:151-155 | every pair `i < j` is asked about once, at its place in the loop order |
| `AiIntegration.CheckDrugCompatibility` | ai_integration_code.py:149-159 | the loop returns the run over all pairs. A short profile posts nothing. A completed run posts one request per pair, in order. A run that raises has posted the requests up to and including the first pair whose turn raises, and every earlier turn succeeded |
| `AiIntegration.CheckRow` | ai_integration_code.py:152-158 | one row of the inner loop: the request log and the records so far agree with the run; if it raises, the turn that raised is the run's first failing one and its request the last logged |
| `AiIntegration.Visit` | ai_integration_code.py:153-158 | one turn: the request it posts, and the record it keeps or the exception it raises |
| `AiIntegration.Turn` | ai_integration_code.py:155-158 | a conflict appends the record, any other verdict keeps the list, an exception ends the run with it |
| `AiIntegration.CheckPair` | ai_integration_code.py:100-146 | the verdict for the pair; with a six-field profile the log holds the one payload `PostPayload` sent, otherwise nothing is sent |
| `AiIntegration.RecordsAreConflicts` | ai_integration_code.py:149-159 | a record is kept iff some pair's verdict is conflict and the record names that pair's drugs |
| `AiIntegration.RecordCounts` | ai_integration_code.py:149-159 | all pairs conflicting keeps one record per pair in pair order; no conflict keeps none |
| `AiIntegration.FewDrugsOrShortProfile` | ai_integration_code.py:149-159 | fewer than two drugs gives no pairs and no records; two or more with a short profile raises |
| `AiIntegration.AlwaysConflictingPair` | ai_integration_code.py:149-159 | two drugs and a service always answering `"-1"` give exactly one high-severity record for the pair |
| `PairOrder.PairsCount` | ai_integration_code.py:151-152 | the nested loops visit `n(n-1)/2` pairs, none for fewer than two drugs |
| `PairOrder.PairsMembers` | ai_integration_code.py:151-152 | a pair is visited iff `i < j < n` |
| `PairOrder.PairsSorted` | ai_integration_code.py:151-152 | pairs are visited in lexicographic order, so no pair twice |
| `PairOrder.PairsInRange` | ai_integration_code.py:151-154 | every visited pair indexes the list |
| `PairOrder.PairAt` | ai_integration_code.py:151-152 | pair `(i, j)` is the one visited after the earlier rows and `j - i - 1` turns of row `i` |
| `PairOrder.PairsTotal` | ai_integration_code.py:151-152 | the row offsets add up to the number of pairs |
| `Runs.RunSucceedsExactly` | ai_integration_code.py:149-159 | the loop returns iff no turn raises |
| `Runs.ResumeSucceedsExactly` | ai_integration_code.py:149-159 | the same from any turn on |
| `Runs.RunFirstFailure` | ai_integration_code.py:149-159 | the first exception raised is the one that escapes |
| `Runs.ResumeFirstFailure` | ai_integration_code.py:149-159 | the same from any turn on |
| `Runs.FirstFailureRaises` | ai_integration_code.py:149-159 | the exception of the first failing turn is the one the run raises |
| `Runs.RunKeeps` | ai_integration_code.py:149-159 | a completed loop returns the records of all turns, in order |
| `Runs.ResumeKeeps` | ai_integration_code.py:149-159 | the same from any turn on, after the records so far |
| `Runs.KeptMembers` | ai_integration_code.py:157-158 | a record is kept iff some turn produced it |
| `Runs.KeptFromMembers` | ai_integration_code.py:157-158 | the same from any turn on |
| `Runs.KeptLength` | ai_integration_code.py:157-158 | at most one record per turn, exactly one when every turn keeps one |
| `Runs.KeptFromLength` | ai_integration_code.py:157-158 | the same from any turn on |
| `Runs.KeptAll` | ai_integration_code.py:157-158 | every turn keeping a record gives exactly those records |
| `Runs.KeptFromAll` | ai_integration_code.py:157-158 | the same from any turn on |
| `Runs.KeptNone` | ai_integration_code.py:157-158 | no turn keeping a record gives none |
| `Runs.KeptFromNone` | ai_integration_code.py:157-158 | the same from any turn on |
| `NxGraph.WithNode` | ai_integration_code.py:178 | adding a node keeps the nodes distinct and adds exactly that node |
| `NxGraph.FindEdge` | ai_integration_code.py:178 | finds the edge joining two nodes in either order, or reports that none does |
| `NxGraph.WithEdgeKeepsUniqueEnds` | ai_integration_code.py:178 | `add_edge` never creates a second edge for a pair |
| `NxGraph.Graph.constructor` | ai_integration_code.py:163 | `nx.Graph()` is empty |
| `NxGraph.Graph.AddEdge` | ai_integration_code.py:178 | adds missing ends in order and adds or updates the pair's edge |
| `NxGraph.BuildStep` | ai_integration_code.py:172-178 | the graph after `k + 1` calls is the graph after `k` updated by call `k` |
| `NxGraph.NodesAreEndpoints` | ai_integration_code.py:172-178 | the nodes are distinct and are exactly the endpoints of the added edges |
| `NxGraph.EndpointOfPrefix` | ai_integration_code.py:172-178 | an endpoint of the first calls stays an endpoint |
| `NxGraph.EdgesAtMost` | ai_integration_code.py:172-178 | no more edges than `add_edge` calls |
| `NxGraph.EdgesUnique` | ai_integration_code.py:172-178 | no two edges join the same pair |
| `NxGraph.EdgesCoverAdds` | ai_integration_code.py:172-178 | every added pair has an edge |
| `NxGraph.EdgesKeepLastAttrs` | ai_integration_code.py:172-178 | every edge carries the attributes of the last call for its pair |
| `NxGraph.BuiltClosed` | ai_integration_code.py:172-178 | every edge's ends are nodes |
| `NxGraph.WithEdgeEnds` | ai_integration_code.py:178 | the edges after `add_edge` join the pairs before plus the new one |
| `NxGraph.IndexOf` | ai_integration_code.py:199 | the first position of a node |
| `NxGraph.Oriented` | ai_integration_code.py:184 | the view reports an edge from its earlier-inserted end, keeping its attributes |
| `NxGraph.EdgeViewLength` | ai_integration_code.py:184 | the edge view has one entry per edge |
| `NxGraph.EdgeViewEntries` | ai_integration_code.py:184 | each view entry is an edge, oriented |
| `NxGraph.EdgeViewHas` | ai_integration_code.py:184 | each edge appears in the view, oriented |
| `NxGraph.EdgeViewUnique` | ai_integration_code.py:184 | the view reports no pair twice |
| `NxGraph.SingleEdge` | ai_integration_code.py:172-184 | one edge between two nodes: both nodes in order, and the edge as its own view |
| `NxGraph.TwoEdgePath` | ai_integration_code.py:172-184 | two edges `a`–`b`, `b`–`c` over three nodes: the nodes in order, and both edges as the view reports them |
| `NxGraph.PathView` | ai_integration_code.py:184 | the edge view of that path lists both edges in order |
| `NxGraph.LastJoinSwap` | ai_integration_code.py:178 | the last call for a pair is the same in either order |
| `NxGraph.ViewOfEntries` | ai_integration_code.py:172-184 | each view entry joins an added pair, carries that pair's last attributes, and starts at the earlier node |
| `NxGraph.ViewOfCovers` | ai_integration_code.py:172-184 | every added pair appears in the view |
| `NxGraph.ViewOfCollapses` | ai_integration_code.py:172-184 | the view has one entry per pair and no more entries than calls |
| `AiGraph.StyleOf` | ai_integration_code.py:165-177 | the severity table for colour and width, gray and 1 outside it, a missing severity as `none`, and "No details" for a missing description |
| `AiGraph.Adds` | ai_integration_code.py:172-178 | one `add_edge` call per record |
| `AiGraph.AddsLink` | ai_integration_code.py:173-178 | the call for a record joins exactly its two drugs and carries its style |
| `AiGraph.Traces` | ai_integration_code.py:184-195 | one line per edge of the view |
| `AiGraph.DrawEdges` | ai_integration_code.py:184-195 | the edge loop draws one line per edge, in view order |
| `AiGraph.LabelNodes` | ai_integration_code.py:198-203 | the node loop labels every node, in node order (the node loop of dashboard.py:120-124 is the same loop) |
| `AiGraph.CreateInteractionGraph` | ai_integration_code.py:162-216 | the figure built from the records |
| `AiGraph.FigureNodes` | ai_integration_code.py:162-216 | the labels are distinct and are exactly the drugs some record names |
| `AiGraph.FigureTraces` | ai_integration_code.py:162-216 | every line joins some record's drugs, is styled by the last record for that pair, and starts at the earlier node |
| `AiGraph.TraceDrawn` | ai_integration_code.py:162-216 | the same for one line |
| `AiGraph.FigureCoversRecords` | ai_integration_code.py:162-216 | every record has a line joining its drugs |
| `AiGraph.FigureCollapsesPairs` | ai_integration_code.py:162-216 | no two lines join the same drugs, and there are no more lines than records |
| `AiGraph.ConflictStyle` | ai_integration_code.py:165-178 | the record kept for a conflicting pair is drawn red with width 4 and its description |
| `AiGraph.OneConflictFigure` | ai_integration_code.py:162-216 | one conflict record for two drugs gives two nodes and one red line of width 4 |
| `AiGraph.TwoConflictsFigure` | ai_integration_code.py:162-216 | conflict records `a`–`b` and `b`–`c` give three nodes and two red lines of width 4 |
| `Dashboard.Steps` | dashboard.py:78-86 | one outcome per pair |
| `Dashboard.Requests` | dashboard.py:78-82 | one GET for each of the first `c` pairs |
| `Dashboard.RequestsNext` | dashboard.py:78-82 | the next GET is for the next pair in loop order |
| `Dashboard.RequestAt` | dashboard.py:78-82 | GET `k` names the drugs of pair `k` |
| `Dashboard.RequestsCount` | dashboard.py:78-79 | a completed run sends `n(n-1)/2` requests |
| `Dashboard.RequestsPerPair` | dashboard.py:78-82 | every pair `i < j` is queried once, with its URL and bearer key, at its place in the loop order |
| `Dashboard.CheckDrugCompatibility` | dashboard.py:75-87 | the loop returns the run over all pairs. A completed run sends one GET per pair, in order. A run that raises has sent the GETs up to and including the first pair whose turn raises, and every earlier turn succeeded |
| `Dashboard.CheckRow` | dashboard.py:79-86 | one row of the inner loop: the GET log and the records so far agree with the run; if it raises, the turn that raised is the run's first failing one and its GET the last logged |
| `Dashboard.Visit` | dashboard.py:80-86 | one turn: the GET it sends, and the record it keeps or the exception it raises |
| `Dashboard.Turn` | dashboard.py:83-86 | a listed interaction appends a record, nothing listed keeps the list, a bad body ends the run |
| `Dashboard.CheckPair` | dashboard.py:80-85 | sends the pair's URL with the bearer key and returns that request; the first listed interaction of a 200 reply, nothing for other statuses or an empty list, and an exception exactly when a 200 body is not a JSON object |
| `Dashboard.RecordsAreListed` | dashboard.py:75-87 | a record is kept iff it names some pair's drugs and carries the first interaction listed for that pair |
| `Dashboard.FailsOnlyOnBadBody` | dashboard.py:83-85 | the loop raises iff some pair gets a 200 reply whose body is not a JSON object |
| `Dashboard.NothingToKeep` | dashboard.py:75-87 | fewer than two drugs, or no 200 reply, gives no records |
| `DashboardGraph.SeverityColor` | dashboard.py:102-109 | red, orange and yellow exactly for high, moderate and mild; green for any other severity |
| `DashboardGraph.RecordColor` | dashboard.py:94-109 | a missing severity, stored as `unknown`, is drawn green |
| `DashboardGraph.Adds` | dashboard.py:92-95 | one `add_edge` call per record, with the severity under `weight` |
| `DashboardGraph.AddsLink` | dashboard.py:93-95 | the call for a record joins exactly its two drugs and carries its details |
| `DashboardGraph.Traces` | dashboard.py:99-115 | one line per edge of the view |
| `DashboardGraph.DrawEdges` | dashboard.py:99-115 | the edge loop with its colour chain and width 2, in view order |
| `DashboardGraph.CreateInteractionGraph` | dashboard.py:90-124 | the figure built from the records |
| `DashboardGraph.FigureNodes` | dashboard.py:90-124 | the labels are distinct and are exactly the drugs some record names |
| `DashboardGraph.FigureTraces` | dashboard.py:90-124 | every line joins some record's drugs, has width 2, and is coloured and described by the last record for that pair |
| `DashboardGraph.TraceDrawn` | dashboard.py:90-124 | the same for one line |
| `DashboardGraph.FigureCoversRecords` | dashboard.py:90-124 | every record has a line joining its drugs |
| `DashboardGraph.FigureCollapsesPairs` | dashboard.py:90-124 | no two lines join the same drugs, and there are no more lines than records |
| `DashboardGraph.ColorsAgree` | dashboard.py:102-109 | both builders colour high, moderate, mild, none and missing severities alike; any other severity is gray in one and green in the other |

## Left out

- Everything outside the two pipelines is not modelled: the Streamlit pages, the SQLite tables, bcrypt, `server.py`, and the commented-out local model loader.
- `print` calls are left out. They do not affect the result.
- Transport errors (a connection failure, a timeout) are left out. Each service always returns a reply.
- JSON is modelled only as far as the code reads it:
  - the `"response"` value is a string;
  - the DrugBank `interactions` value is absent, `null` or a list of string-valued dictionaries.
  - Other shapes (a non-list `interactions`, non-string severities or descriptions) are not modelled.
- The payload carries the prompt as its two drug names.
  - `Prompt.Text()` renders the full prompt string, whitespace included. `PromptNamesBothDrugs` is stated about that string.
- `patient_info_str`: the model keeps only the `IndexError` for fewer than six fields. Float formatting of height and weight is not modelled, because the string is never used.
- Unpacking each medication into `(name, dosage)` is taken as given. A malformed entry would raise `ValueError`; that case is not modelled.
- `IsWordChar` in `Text` uses ASCII letters, digits and `_`. Python's `\b` on `str` also counts other Unicode letters and digits as word characters.
- DrugBank URLs are built by concatenation. The percent-encoding that `requests` applies is not modelled.
- `Steps` gives a pair outside the list an outcome that appends nothing. The loops never produce such a pair (`PairOrder.PairsInRange`).
- `spring_layout` coordinates are not modelled. A line is identified by its two node names rather than by `x`/`y` pairs.
- Marker styling, the layout title and the hover mode are not modelled.
- The Plotly node trace's tuple concatenation in `dashboard.py` is modelled as appending the name to a sequence.
