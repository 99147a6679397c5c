# OntoGuard-inspired demo: prompt analysis and node colouring in Dafny

The demo page takes a free-text prompt and shows four things computed from it.

- **Mapped ontology concepts.** A case-insensitive keyword lookup with fixed priority: `hipaa`, then `gdpr`, then `trust`. Each keyword selects a fixed list of concept labels. An empty prompt maps to nothing.
- **Simulated reliability score.** `min(95, 80 + 5·k + (w mod 11))`, where `k` is how many of the keywords `compliant`, `data` and `model` occur in the lowered prompt, and `w` is the number of tokens `str.split()` returns.
- **Compliance table and risk level.** A fixed table of three laws with canned results. Each result has a reason line. A risk level is derived from the table.
- **Node colours of the reasoning graph.** Each concept label maps to its cluster, and each cluster to a colour. `"lightblue"` is the fallback.

The model takes each of these out of the page script as pure functions and proves what they compute. The modules are:

- `Text` (text.dfy) covers the Python string operations the script relies on. `pat in s` is `Contains`. `s.lower()` is `Lower`, over ASCII. `s.split()` is `Split`, built on the exact character set of `str.isspace()`.
- `Prompt` (prompt.dfy) holds the concept mapping and the score.
- `Compliance` (compliance.dfy) holds the table, the reason line and the risk level.
- `Ontology` (ontology.dfy) holds the ontology document and the fallback when loading fails.
- `Coloring` (coloring.dfy) holds the cluster lookup and the node colours.
- `Wrappers` (wrappers.dfy) holds `Option`.

The script computes the score, risk level and colours only when the prompt is non-empty (ontology_enhanced_ai_demo_app.py:72). The functions here are total, and their properties hold for every prompt.

## Model

| member | source | states |
|---|---|---|
| `Text.IsSpace` | ontology_enhanced_ai_demo_app.py:75 | the separator set of `str.split()`: exactly Python's `str.isspace()` characters, and no ASCII letter or digit is among them |
| `Text.Contains` | ontology_enhanced_ai_demo_app.py:50-54 | Python's `pat in s`: a match needs `len(pat) <= len(s)`, the empty pattern is in every string, a prefix match is a match (full meaning in `Text.ContainsIffOccurs`) |
| `Text.Lower` | ontology_enhanced_ai_demo_app.py:50 | lowering keeps the length of the prompt |
| `Text.LowerSpec` | ontology_enhanced_ai_demo_app.py:50 | no capital letter is left; a character changes exactly when it is an ASCII capital, and then becomes its small letter |
| `Text.LowerIdempotent` | ontology_enhanced_ai_demo_app.py:50-54 | lowering twice is lowering once |
| `Text.ContainsIffOccurs` | ontology_enhanced_ai_demo_app.py:50-54 | the substring test holds exactly when the keyword occurs at some index of the text |
| `Text.ContainsLowerIffWindow` | ontology_enhanced_ai_demo_app.py:50-54 | `kw in p.lower()` holds exactly when some window of the prompt lowers to `kw`, so the test is case-insensitive |
| `Text.LeadingRun` | ontology_enhanced_ai_demo_app.py:75 | the result is the length of the maximal leading run of separators (or of non-separators) |
| `Text.Split` | ontology_enhanced_ai_demo_app.py:75 | every token of `split()` is non-empty and contains no whitespace; together with `SplitSkipsLeadingSpace`, `SplitWordThenSpace`, `SplitSkipsTrailingSpace` and `SplitWord` this fixes the tokens of any prompt, whatever the whitespace between, before or after them |
| `Text.SplitKeepsNonSpace` | ontology_enhanced_ai_demo_app.py:75 | the tokens, concatenated, are exactly the non-whitespace characters of the prompt, in order |
| `Text.SplitJoin` | ontology_enhanced_ai_demo_app.py:75 | round trip: splitting words joined by any non-empty whitespace gives back the words |
| `Text.SplitSkipsLeadingSpace` | ontology_enhanced_ai_demo_app.py:75 | leading whitespace does not change the tokens |
| `Text.SplitWord` | ontology_enhanced_ai_demo_app.py:75 | a single word splits into itself |
| `Text.SplitWordThenSpace` | ontology_enhanced_ai_demo_app.py:75 | a word followed by any non-empty run of separators, mixed or not, is the first token, and splitting goes on with what follows |
| `Text.SplitSkipsTrailingSpace` | ontology_enhanced_ai_demo_app.py:75 | trailing whitespace of any kind does not change the tokens |
| `Text.SplitLower` | ontology_enhanced_ai_demo_app.py:75 | the tokens of the lowered prompt are the lowered tokens of the prompt, so lowering never changes the token count |
| `Prompt.MapConcepts` | ontology_enhanced_ai_demo_app.py:48-55 | an empty prompt maps to no concepts; every result is one of the three fixed lists or empty |
| `Prompt.FirstMatch` | ontology_enhanced_ai_demo_app.py:50-55 | returns the least index whose keyword occurs, or none exactly when no keyword occurs |
| `Prompt.MapConceptsFollowsRules` | ontology_enhanced_ai_demo_app.py:48-55 | the if/elif chain equals the first matching rule of the table hipaa, gdpr, trust, applied to the lowered prompt |
| `Prompt.ConceptListsDistinct` | ontology_enhanced_ai_demo_app.py:51-55 | the three concept lists are non-empty and pairwise different |
| `Prompt.MapConceptsPriority` | ontology_enhanced_ai_demo_app.py:50-55 | "hipaa" yields the HIPAA list whatever else occurs; the GDPR list comes out iff "hipaa" is absent and "gdpr" present; the trust list iff both are absent and "trust" present; the empty list iff none occurs |
| `Prompt.MapConceptsCaseInsensitive` | ontology_enhanced_ai_demo_app.py:50-54 | a prompt and its lowered form map to the same concepts |
| `Prompt.KeywordHits` | ontology_enhanced_ai_demo_app.py:74-75 | the keyword count never exceeds the number of keywords |
| `Prompt.Present` | ontology_enhanced_ai_demo_app.py:74-75 | a keyword is in the set exactly when it is in the list and occurs in the text |
| `Prompt.KeywordHitsCountsPresent` | ontology_enhanced_ai_demo_app.py:74-75 | with distinct keywords, the count is the number of distinct keywords present, however often each repeats |
| `Prompt.ScoreCountsKeywordsOnce` | ontology_enhanced_ai_demo_app.py:74-75 | for `compliant`, `data`, `model` the keyword part is the number of those present, between 0 and 3 |
| `Prompt.RawScore` | ontology_enhanced_ai_demo_app.py:75 | the uncapped score lies between 80 and 105 |
| `Prompt.TrustScore` | ontology_enhanced_ai_demo_app.py:75 | the score lies in [80, 95]; it is 95 exactly when the uncapped score reaches 95, and otherwise equals the uncapped score |
| `Prompt.ScoreKeywordHits` | ontology_enhanced_ai_demo_app.py:74-75 | the keyword part is the sum of the three individual tests |
| `Prompt.AllKeywordsGiveCap` | ontology_enhanced_ai_demo_app.py:74-75 | with all three keywords present the score is 95 |
| `Prompt.NoKeywordScore` | ontology_enhanced_ai_demo_app.py:74-75 | with no keyword present the score is 80 + (tokens mod 11), at most 90 |
| `Prompt.TrustScoreCaseInsensitive` | ontology_enhanced_ai_demo_app.py:75 | a prompt and its lowered form score alike |
| `Compliance.Reason` | ontology_enhanced_ai_demo_app.py:95-98 | the gap reason is shown exactly when the warning sign occurs somewhere in the result text |
| `Compliance.RiskLevel` | ontology_enhanced_ai_demo_app.py:81 | "Moderate Risk" exactly when some result is equal to the bare warning sign, otherwise "Low Risk" |
| `Compliance.RiskLevelAlwaysLow` | ontology_enhanced_ai_demo_app.py:76-81 | with the fixed table the risk level is always "Low Risk", although the GDPR result is shown with the gap reason |
| `Compliance.IntendedRiskLevel` | ontology_enhanced_ai_demo_app.py:81 | "Moderate Risk" exactly when some result is shown with the gap reason |
| `Compliance.IntendedRiskLevelModerate` | ontology_enhanced_ai_demo_app.py:76-81 | with the fixed table the intended level is "Moderate Risk" |
| `Compliance.RiskLevelUnderReports` | ontology_enhanced_ai_demo_app.py:81 | whenever the test as written reports moderate risk, the intended one does too |
| `Ontology.OntologyFrom` | ontology_enhanced_ai_demo_app.py:7-15 | a parsed file is used as is; a missing or malformed file yields no concepts and no relations |
| `Ontology.LoadError` | ontology_enhanced_ai_demo_app.py:10-14 | an error is shown exactly when loading failed, and a malformed file's error contains the parser's message |
| `Coloring.ConceptToCluster` | ontology_enhanced_ai_demo_app.py:123 | the keys of the dict are exactly the concept labels |
| `Coloring.LastConceptWins` | ontology_enhanced_ai_demo_app.py:123 | a duplicated label maps to the cluster of its last occurrence |
| `Coloring.NodeColor` | ontology_enhanced_ai_demo_app.py:124 | a node with no cluster gets "lightblue"; a node whose cluster has a table colour gets it; any other cluster gets "lightblue"; the colour is one of the six |
| `Coloring.NodeColors` | ontology_enhanced_ai_demo_app.py:116-124 | one colour per node, in node order; "lightblue" for a node that is no concept label or whose cluster is not one of the five; otherwise the table colour of the last matching concept's cluster; every colour is one of the six |

## Left out

- Streamlit rendering is left out: page setup, CSS, title, sidebar text and links, metric, warning, expander, button and footer (lines 18-47, 57-71, 83-94, 100-101, 132-161). It is display only.
- Reading and parsing `ontology_sample.json` is left out. The outcome of the read (parsed data, missing file, or a parser message) is an input to `Ontology.OntologyFrom` and `Ontology.LoadError`.
- Some load failures crash the page instead of falling back, and `LoadOutcome` cannot express them. These are read errors other than the two caught exceptions (for example `PermissionError` or `UnicodeDecodeError` at lines 8-9). They also include a parsed document that is not an object or lacks `"concepts"` or `"relations"` (lines 105, 123), and concept records lacking a `label` or `cluster` key (line 123).
- Building the graph with networkx is left out (lines 104-113). `Coloring.NodeColors` takes the node list as a parameter. The order in which `G.nodes()` lists nodes is not modelled.
- The spring layout and matplotlib drawing are left out (lines 126-131). They are foreign-library calls on floating point.
- The legend and reasoning-path strings are left out (lines 135-150). They are static text.
- Text.Lower: lowers ASCII capitals only. Python's `str.lower()` also lowers other scripts. Among non-ASCII characters, only the Kelvin sign (to `k`) and `İ` (to `i` plus a combining dot) lower to ASCII letters. Neither can complete one of the six keywords, so the ASCII restriction should not change any concept or keyword result.
- Python strings may hold lone surrogate code points. Dafny's `char` (a Unicode scalar value) cannot, so such prompts are outside the model.

## Findings

| source | as written | input that shows it | evidently intended | confidence | as-written member | corrected member |
|---|---|---|---|---|---|---|
| ontology_enhanced_ai_demo_app.py:81 | `"⚠️" in compliance_results.values()` compares the warning sign with each whole result string | any non-empty prompt: the GDPR result `"⚠️ Partial Compliance — Consent Clause Missing"` is not equal to `"⚠️"`, so the level is "Low Risk" | "Moderate Risk" when some result carries the warning sign, the substring test line 95 applies to each result | high, not executed | `Compliance.RiskLevelAlwaysLow` | `Compliance.IntendedRiskLevel` |
