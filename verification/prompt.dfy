/**
 * The two things the demo computes from the user's prompt: the ontology
 * concepts it maps to (a keyword lookup with fixed priority) and the
 * simulated reliability score.
 */
module Prompt {
  import opened Text
  import opened Wrappers

  const HipaaConcepts: seq<string> := ["Compliance", "HIPAA", "Risk Assessment"]
  const GdprConcepts: seq<string> := ["Compliance", "GDPR", "Policy Validation"]
  const TrustConcepts: seq<string> := ["Trust Scoring", "Model Output"]

  /** The concepts shown for a prompt: an empty prompt maps to nothing;
      otherwise the first of "hipaa", "gdpr", "trust" found in the lowered
      prompt selects its fixed list, and no keyword maps to nothing. */
  function MapConcepts(prompt: string): (concepts: seq<string>)
    ensures prompt == [] ==> concepts == []
    ensures concepts == [] || concepts == HipaaConcepts || concepts == GdprConcepts || concepts == TrustConcepts
  {
    if prompt == [] then []
    else if Contains(Lower(prompt), "hipaa") then HipaaConcepts
    else if Contains(Lower(prompt), "gdpr") then GdprConcepts
    else if Contains(Lower(prompt), "trust") then TrustConcepts
    else []
  }

  /** A keyword and the concepts it stands for; a rule table read top-down is
      a reference definition of the if/elif chain. */
  datatype Rule = Rule(keyword: string, concepts: seq<string>)

  const Rules: seq<Rule> :=
    [Rule("hipaa", HipaaConcepts), Rule("gdpr", GdprConcepts), Rule("trust", TrustConcepts)]

  /** The index of the first rule whose keyword occurs in `text`, if any. */
  function FirstMatch(rules: seq<Rule>, text: string): (r: Option<nat>)
    ensures r.Some? ==> r.value < |rules| && Contains(text, rules[r.value].keyword)
    ensures r.Some? ==> forall j :: 0 <= j < r.value ==> !Contains(text, rules[j].keyword)
    ensures r.None? <==> forall j :: 0 <= j < |rules| ==> !Contains(text, rules[j].keyword)
  {
    if rules == [] then None
    else if Contains(text, rules[0].keyword) then Some(0)
    else
      match FirstMatch(rules[1..], text)
      case None => None
      case Some(i) => Some(i + 1)
  }

  /** The if/elif chain is the rule table applied to the lowered prompt. */
  lemma MapConceptsFollowsRules(prompt: string)
    ensures MapConcepts(prompt) ==
      if prompt == [] then []
      else match FirstMatch(Rules, Lower(prompt))
        case None => []
        case Some(i) => Rules[i].concepts
  {
    var r := FirstMatch(Rules, Lower(prompt));
    assert Rules[0].keyword == "hipaa" && Rules[1].keyword == "gdpr" && Rules[2].keyword == "trust";
    if r == Some(0) {
      assert Rules[0].concepts == HipaaConcepts;
    } else if r == Some(1) {
      assert Rules[1].concepts == GdprConcepts;
    } else if r == Some(2) {
      assert Rules[2].concepts == TrustConcepts;
    }
  }

  lemma ConceptListsDistinct()
    ensures HipaaConcepts != GdprConcepts
    ensures HipaaConcepts != TrustConcepts
    ensures GdprConcepts != TrustConcepts
    ensures HipaaConcepts != [] && GdprConcepts != [] && TrustConcepts != []
  {
  }

  /** Priority: "hipaa" wins whatever else occurs; the GDPR list comes out
      exactly when "hipaa" is absent and "gdpr" present; the trust list
      exactly when both are absent and "trust" present; otherwise nothing. */
  lemma MapConceptsPriority(prompt: string)
    ensures Contains(Lower(prompt), "hipaa") ==> MapConcepts(prompt) == HipaaConcepts
    ensures MapConcepts(prompt) == HipaaConcepts <==> Contains(Lower(prompt), "hipaa")
    ensures MapConcepts(prompt) == GdprConcepts <==>
      !Contains(Lower(prompt), "hipaa") && Contains(Lower(prompt), "gdpr")
    ensures MapConcepts(prompt) == TrustConcepts <==>
      !Contains(Lower(prompt), "hipaa") && !Contains(Lower(prompt), "gdpr") && Contains(Lower(prompt), "trust")
    ensures MapConcepts(prompt) == [] <==>
      !Contains(Lower(prompt), "hipaa") && !Contains(Lower(prompt), "gdpr") && !Contains(Lower(prompt), "trust")
  {
  }

  /** Mapping ignores case: the prompt and its lowered form map alike. */
  lemma MapConceptsCaseInsensitive(prompt: string)
    ensures MapConcepts(Lower(prompt)) == MapConcepts(prompt)
  {
    LowerIdempotent(prompt);
  }

  /** The keywords whose presence raises the simulated score. */
  const ScoreKeywords: seq<string> := ["compliant", "data", "model"]

  /** `sum(word in text for word in keywords)`: how many keywords occur. */
  function KeywordHits(text: string, keywords: seq<string>): (k: nat)
    ensures k <= |keywords|
  {
    if keywords == [] then 0
    else (if Contains(text, keywords[0]) then 1 else 0) + KeywordHits(text, keywords[1..])
  }

  predicate Distinct(keywords: seq<string>) {
    forall i, j :: 0 <= i < j < |keywords| ==> keywords[i] != keywords[j]
  }

  /** The set of keywords that occur in `text`. */
  function Present(text: string, keywords: seq<string>): (found: set<string>)
    ensures forall w :: w in found <==> w in keywords && Contains(text, w)
  {
    if keywords == [] then {}
    else (if Contains(text, keywords[0]) then {keywords[0]} else {}) + Present(text, keywords[1..])
  }

  /** Each keyword counts once however often it occurs in the prompt: with
      distinct keywords, the count is the number of keywords present. */
  lemma {:induction false} KeywordHitsCountsPresent(text: string, keywords: seq<string>)
    requires Distinct(keywords)
    ensures KeywordHits(text, keywords) == |Present(text, keywords)|
    decreases |keywords|
  {
    if keywords != [] {
      var rest := keywords[1..];
      KeywordHitsCountsPresent(text, rest);
      assert keywords[0] !in rest;
      assert keywords[0] !in Present(text, rest);
    }
  }

  /** For the score's own keyword list: the keyword part of the score is the
      number of distinct keywords found, from 0 to 3. */
  lemma ScoreCountsKeywordsOnce(prompt: string)
    ensures KeywordHits(Lower(prompt), ScoreKeywords) == |Present(Lower(prompt), ScoreKeywords)| <= 3
  {
    assert Distinct(ScoreKeywords) by {
      assert |ScoreKeywords[0]| == 9 && |ScoreKeywords[1]| == 4 && |ScoreKeywords[2]| == 5;
    }
    KeywordHitsCountsPresent(Lower(prompt), ScoreKeywords);
  }

  /** The uncapped score `80 + 5·k + (w mod 11)`, with k the keyword hits in
      the lowered prompt and w the number of `split()` tokens. */
  function RawScore(prompt: string): (raw: nat)
    ensures 80 <= raw <= 80 + 5 * |ScoreKeywords| + 10
  {
    80 + KeywordHits(Lower(prompt), ScoreKeywords) * 5 + |Split(prompt)| % 11
  }

  /** `min(95, RawScore)`: the reliability percentage shown. */
  function TrustScore(prompt: string): (score: nat)
    ensures 80 <= score <= 95
    ensures score == 95 <==> RawScore(prompt) >= 95
    ensures score < 95 ==> score == RawScore(prompt)
  {
    if RawScore(prompt) < 95 then RawScore(prompt) else 95
  }

  /** The keyword count over the fixed keyword list, one keyword at a time. */
  lemma ScoreKeywordHits(text: string)
    ensures KeywordHits(text, ScoreKeywords) ==
      (if Contains(text, "compliant") then 1 else 0) +
      (if Contains(text, "data") then 1 else 0) +
      (if Contains(text, "model") then 1 else 0)
  {
    assert ScoreKeywords[1..] == ["data", "model"];
    assert ["data", "model"][1..] == ["model"];
    assert ["model"][1..] == [];
    assert KeywordHits(text, ["model"]) == if Contains(text, "model") then 1 else 0;
    assert KeywordHits(text, ["data", "model"]) ==
      (if Contains(text, "data") then 1 else 0) + KeywordHits(text, ["model"]);
  }

  /** All three keywords present: the score is at its cap. */
  lemma AllKeywordsGiveCap(prompt: string)
    requires forall w :: w in ScoreKeywords ==> Contains(Lower(prompt), w)
    ensures TrustScore(prompt) == 95
  {
    assert ScoreKeywords[0] in ScoreKeywords;
    assert ScoreKeywords[1] in ScoreKeywords;
    assert ScoreKeywords[2] in ScoreKeywords;
    ScoreKeywordHits(Lower(prompt));
    assert KeywordHits(Lower(prompt), ScoreKeywords) == 3;
  }

  /** No keyword present: the score is 80 plus the token count mod 11, so it
      never exceeds 90. */
  lemma NoKeywordScore(prompt: string)
    requires forall w :: w in ScoreKeywords ==> !Contains(Lower(prompt), w)
    ensures TrustScore(prompt) == 80 + |Split(prompt)| % 11
    ensures TrustScore(prompt) <= 90
  {
    assert ScoreKeywords[0] in ScoreKeywords;
    assert ScoreKeywords[1] in ScoreKeywords;
    assert ScoreKeywords[2] in ScoreKeywords;
    ScoreKeywordHits(Lower(prompt));
    assert KeywordHits(Lower(prompt), ScoreKeywords) == 0;
  }

  /** The score ignores case: lowering changes neither the keywords found nor
      the number of tokens. */
  lemma TrustScoreCaseInsensitive(prompt: string)
    ensures TrustScore(Lower(prompt)) == TrustScore(prompt)
  {
    LowerIdempotent(prompt);
    SplitLower(prompt);
    assert |Split(Lower(prompt))| == |Split(prompt)|;
  }
}
