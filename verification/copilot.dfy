/** The prototype copilot of main.js: a prompt, trimmed by the page and then
    lower-cased, is answered by the first of three keyword rules that
    matches, or by a fixed prototype message. */
module Copilot {
  import opened Wrappers
  import opened Text

  const ImpermanentLossAnswer := "Impermanent Loss (IL) arises when two assets in a CPMM diverge in price. Deterministic calc: IL = 1 - (2 * sqrt(R) / (1+R)) where R = price_ratio. In Velar, use the Velar Math Engine to compute exact LP share changes given pool reserves."
  const StakingAnswer := "Staking guidance: staking $VELAR grants IDO tickets and fee share. For a projection, provide your stake amount and the tool will compute expected ticket chances and APY estimates based on current pool yields."
  const BuildAnswer := "Recommended: Build Velar Copilot (swap & LP explainers), Perps Risk Engine, AI Market-Maker assistant, Governance Copilot. Prioritize deterministic math + on-chain indexer."
  const PrototypeAnswer := "Prototype Copilot: This environment is a non-LLM prototype. For live natural language answers, integrate a fine-tuned LLM with a deterministic math engine and on-chain RAG."

  // The three rules, checked against the lower-cased prompt in this order.

  predicate AsksImpermanentLoss(p: string)
  {
    Contains(p, "impermanent") || Contains(p, "il") || Contains(p, "impermanent loss")
  }

  predicate AsksStaking(p: string)
  {
    Contains(p, "staking") || Contains(p, "ido")
  }

  predicate AsksBuild(p: string)
  {
    Contains(p, "what to build") || Contains(p, "recommend")
  }

  /** `cannedCopilot(prompt)`: always one of the four fixed answers. */
  function CannedCopilot(prompt: string): (answer: string)
    ensures answer == ImpermanentLossAnswer || answer == StakingAnswer ||
            answer == BuildAnswer || answer == PrototypeAnswer
  {
    var p := Lower(prompt);
    if AsksImpermanentLoss(p) then ImpermanentLossAnswer
    else if AsksStaking(p) then StakingAnswer
    else if AsksBuild(p) then BuildAnswer
    else PrototypeAnswer
  }

  /** The send handlers: the prompt is trimmed, an empty one is ignored, and
      any other is answered. */
  function Send(input: string): (response: Option<string>)
    ensures response.None? <==> AllIn(input, JsWhitespace)
    ensures response.Some? ==> Trim(input, JsWhitespace) != []
  {
    TrimEmptyIff(input, JsWhitespace);
    var prompt := Trim(input, JsWhitespace);
    if prompt == [] then None else Some(CannedCopilot(prompt))
  }

  // ---------------------------------------------------------------------------
  // Properties

  /** The four answers are different texts. */
  lemma AnswersDistinct()
    ensures ImpermanentLossAnswer != StakingAnswer && ImpermanentLossAnswer != BuildAnswer
    ensures ImpermanentLossAnswer != PrototypeAnswer && StakingAnswer != BuildAnswer
    ensures StakingAnswer != PrototypeAnswer && BuildAnswer != PrototypeAnswer
  {
    assert |ImpermanentLossAnswer| != |StakingAnswer|;
    assert |ImpermanentLossAnswer| != |BuildAnswer|;
    assert |ImpermanentLossAnswer| != |PrototypeAnswer|;
    assert |StakingAnswer| != |BuildAnswer|;
    assert |StakingAnswer| != |PrototypeAnswer|;
    assert BuildAnswer[|BuildAnswer| - 2] == 'r' && PrototypeAnswer[|PrototypeAnswer| - 2] == 'G';
  }

  /** Rule priority: the impermanent-loss answer exactly when its rule
      matches; the staking answer exactly when the first rule fails and the
      second matches; the build answer exactly when both fail and the third
      matches; the prototype message exactly when none matches. */
  lemma RulePriority(prompt: string)
    ensures var p := Lower(prompt);
      (CannedCopilot(prompt) == ImpermanentLossAnswer <==> AsksImpermanentLoss(p)) &&
      (CannedCopilot(prompt) == StakingAnswer <==> !AsksImpermanentLoss(p) && AsksStaking(p)) &&
      (CannedCopilot(prompt) == BuildAnswer <==> !AsksImpermanentLoss(p) && !AsksStaking(p) && AsksBuild(p)) &&
      (CannedCopilot(prompt) == PrototypeAnswer <==> !AsksImpermanentLoss(p) && !AsksStaking(p) && !AsksBuild(p))
  {
    AnswersDistinct();
  }

  /** The prompt is lower-cased before any test, so letter case never
      changes the answer. */
  lemma CaseInsensitive(prompt: string)
    ensures CannedCopilot(Lower(prompt)) == CannedCopilot(prompt)
  {
    LowerIdempotent(prompt);
  }

  /** Any occurrence of a needle is also an occurrence of each of its prefixes. */
  lemma ContainsPrefix(s: string, needle: string, k: nat)
    requires k <= |needle| && Contains(s, needle)
    ensures Contains(s, needle[..k])
  {
    var i :| 0 <= i <= |s| - |needle| && OccursAt(s, needle, i);
    assert s[i..i + k] == s[i..i + |needle|][..k];
    assert OccursAt(s, needle[..k], i);
  }

  /** The "impermanent loss" test is redundant: whatever it matches, the
      "impermanent" test already matches. */
  lemma ImpermanentLossRedundant(p: string)
    ensures Contains(p, "impermanent loss") ==> Contains(p, "impermanent")
    ensures AsksImpermanentLoss(p) <==> Contains(p, "impermanent") || Contains(p, "il")
  {
    if Contains(p, "impermanent loss") {
      assert "impermanent loss"[..11] == "impermanent";
      ContainsPrefix(p, "impermanent loss", 11);
    }
  }

  /** Worked example: "Will staking pay?" mentions staking, but "il" occurs
      inside "will", so the impermanent-loss rule answers first. */
  lemma IlInsideWord(prompt: string)
    requires prompt == "Will staking pay?"
    ensures AsksStaking(Lower(prompt))
    ensures CannedCopilot(prompt) == ImpermanentLossAnswer
  {
    var p := Lower(prompt);
    WillStakingMentions(prompt, p);
    assert Contains(p, "il");
  }

  lemma WillStakingMentions(prompt: string, p: string)
    requires prompt == "Will staking pay?" && p == Lower(prompt)
    ensures Contains(p, "il") && Contains(p, "staking")
  {
    assert prompt[1] == 'i' && prompt[2] == 'l';
    assert OccursAt(prompt, "il", 1);
    LowerOccurs(prompt, "il", 1);
    WillStakingAt(prompt);
    LowerOccurs(prompt, "staking", 5);
  }

  lemma WillStakingAt(prompt: string)
    requires prompt == "Will staking pay?"
    ensures OccursAt(prompt, "staking", 5)
  {
    assert prompt[5] == 's' && prompt[6] == 't' && prompt[7] == 'a' && prompt[8] == 'k';
    assert prompt[9] == 'i' && prompt[10] == 'n' && prompt[11] == 'g';
    assert prompt[5..12] == "staking";
  }

  /** A word without capitals that occurs in a string occurs at the same
      place in its lower-cased form. */
  lemma LowerOccurs(s: string, w: string, i: nat)
    requires OccursAt(s, w, i) && forall k :: 0 <= k < |w| ==> !IsUpper(w[k])
    ensures OccursAt(Lower(s), w, i)
  {
    var l := Lower(s)[i..i + |w|];
    forall k | 0 <= k < |w| ensures l[k] == w[k] {
      assert s[i..i + |w|][k] == s[i + k];
    }
  }

  /** Whitespace around a prompt is stripped before it is answered: a
      prompt padded on either side gets the same answer as the bare prompt. */
  lemma SendIgnoresPadding(before: string, prompt: string, after: string)
    requires AllIn(before, JsWhitespace) && AllIn(after, JsWhitespace)
    requires prompt != [] && prompt[0] !in JsWhitespace && prompt[|prompt| - 1] !in JsWhitespace
    ensures Send(before + prompt + after) == Some(CannedCopilot(prompt))
  {
    TrimPadded(before, prompt, after, JsWhitespace);
    TrimEmptyIff(before + prompt + after, JsWhitespace);
  }
}
