/**
  One prompt inside a session: the budget check and the generation loop. What the
  model, the sampler and the cancel flag do in each turn is a parameter.
 */
module TokenBudget {
  import opened Options

  datatype Status = Done | Cancelled | ContextExceeded | RuntimeFailure

  /**
    A turn of the loop: the flag before decoding, whether the batch decodes, the flag
    when it does not, whether the sampled token ends the text, and its piece of text.
   */
  datatype Turn = Turn(cancelled: bool, decodes: bool, aborted: bool, ends: bool, piece: Option<string>)

  predicate Stops(t: Turn) {
    t.cancelled || !t.decodes || t.ends || t.piece.None?
  }

  /** How a prompt ends in a turn that stops it. */
  function Outcome(t: Turn): Status {
    if t.cancelled then Cancelled
    else if !t.decodes then (if t.aborted then Cancelled else RuntimeFailure)
    else if t.ends then Done
    else RuntimeFailure
  }

  /** The first turn among `max` that stops, or `max`. */
  function FirstStop(turns: seq<Turn>, max: nat): (k: nat)
    requires max <= |turns|
    ensures k <= max && (k < max ==> Stops(turns[k])) && forall i :: 0 <= i < k ==> !Stops(turns[i])
  {
    if max == 0 || Stops(turns[0]) then 0 else 1 + FirstStop(turns[1..], max - 1)
  }

  /** The text of the first `k` sampled tokens. */
  function Generated(turns: seq<Turn>, k: nat): string
    requires k <= |turns| && forall i :: 0 <= i < k ==> turns[i].piece.Some?
  {
    if k == 0 then "" else Generated(turns, k - 1) + turns[k - 1].piece.value
  }

  /** The tokens handed to the model: the prompt in the first turn, one sampled token in each later one. */
  function Decoded(promptTokens: nat, turns: seq<Turn>, max: nat): nat
    requires max <= |turns|
  {
    var k := FirstStop(turns, max);
    var batches := if k < max && !turns[k].cancelled then k + 1 else k;
    if batches == 0 then 0 else promptTokens + batches - 1
  }

  /**
    A prompt never hands the model more tokens than the context holds, reports the
    first thing that stops it, and on success returns the pieces in order.
   */
  method Prompt(cancelled: bool, promptTokens: nat, maxTokens: nat, quota: nat, turns: seq<Turn>)
    returns (status: Status, text: string, usage: Option<nat>, decoded: nat)
    requires 1 <= maxTokens <= |turns| && promptTokens + maxTokens <= 0x7FFF_FFFF
    ensures decoded <= quota
    ensures status == ContextExceeded <==> !cancelled && promptTokens > 0 && promptTokens + maxTokens > quota
    ensures usage.Some? <==> !cancelled && promptTokens > 0 && promptTokens + maxTokens <= quota
    ensures usage.None? ==> decoded == 0 && text == "" && (status == Cancelled <==> cancelled)
    ensures usage.Some? ==>
      var k := FirstStop(turns, maxTokens);
      && usage.value == promptTokens && decoded == Decoded(promptTokens, turns, maxTokens)
      && status == (if k == maxTokens then Done else Outcome(turns[k]))
      && text == if status == Done then Generated(turns, k) else ""
  {
    status, text, usage, decoded := Done, "", None, 0;
    if cancelled { return Cancelled, "", None, 0; }
    if promptTokens == 0 { return RuntimeFailure, "", None, 0; }
    if promptTokens + maxTokens > quota { return ContextExceeded, "", None, 0; }
    usage := Some(promptTokens);
    var generated := "";
    var batch := promptTokens;
    for turn := 0 to maxTokens
      invariant forall i :: 0 <= i < turn ==> !Stops(turns[i])
      invariant generated == Generated(turns, turn)
      invariant decoded == (if turn == 0 then 0 else promptTokens + turn - 1)
      invariant batch == if turn == 0 then promptTokens else 1
    {
      if Stops(turns[turn]) { FirstStopIs(turns, maxTokens, turn); }
      if turns[turn].cancelled { return Cancelled, "", usage, decoded; }
      decoded := decoded + batch;
      if !turns[turn].decodes {
        status := if turns[turn].aborted then Cancelled else RuntimeFailure;
        return status, "", usage, decoded;
      }
      if turns[turn].ends { return Done, generated, usage, decoded; }
      if turns[turn].piece.None? { return RuntimeFailure, "", usage, decoded; }
      generated := generated + turns[turn].piece.value;
      batch := 1;
    }
    FirstStopIs(turns, maxTokens, maxTokens);
    text := generated;
  }

  lemma FirstStopIs(turns: seq<Turn>, max: nat, k: nat)
    requires k <= max <= |turns| && (k < max ==> Stops(turns[k])) && forall i :: 0 <= i < k ==> !Stops(turns[i])
    ensures FirstStop(turns, max) == k
  {
    var l := FirstStop(turns, max);
    assert !(l < k) && !(k < l);
  }

  /** The first `n` turns hand on a token each. */
  predicate AllGoOn(turns: seq<Turn>, n: nat)
    requires n <= |turns|
  {
    forall i :: 0 <= i < n ==> !turns[i].cancelled && turns[i].decodes && !turns[i].ends && turns[i].piece.Some?
  }

  /** The turn finds the cancel flag set, be it after its batch could not be decoded. */
  predicate FlagSeen(t: Turn) {
    t.cancelled || (!t.decodes && t.aborted)
  }

  predicate EndsText(t: Turn) {
    !t.cancelled && t.decodes && t.ends
  }

  /**
    The generation ends cancelled exactly when turns that go on lead to one that finds the
    flag set, and well exactly when they use up the tokens or lead to the end of the text.
   */
  lemma PromptEnds(turns: seq<Turn>, max: nat)
    requires max <= |turns|
    ensures var k := FirstStop(turns, max);
      var status := if k == max then Done else Outcome(turns[k]);
      && (status == Cancelled <==> exists n :: 0 <= n < max && AllGoOn(turns, n) && FlagSeen(turns[n]))
      && (status == Done <==> AllGoOn(turns, max) || exists n :: 0 <= n < max && AllGoOn(turns, n) && EndsText(turns[n]))
  {
    var k := FirstStop(turns, max);
    assert AllGoOn(turns, k);
    forall n | k < n <= max ensures !AllGoOn(turns, n) {
      assert Stops(turns[k]);
    }
  }

  /** A turn that goes on. */
  const GOES_ON := Turn(false, true, false, false, Some("x"))

  /**
    The check is one token stricter than it has to be: the context suffices for every
    course of the generation exactly when prompt and output exceed it by at most one,
    for the last sampled token is never handed back to the model.
   */
  lemma BudgetExactly(promptTokens: nat, maxTokens: nat, quota: nat)
    requires maxTokens >= 1
    ensures (forall turns: seq<Turn> :: maxTokens <= |turns| ==> Decoded(promptTokens, turns, maxTokens) <= quota)
       <==> promptTokens + maxTokens - 1 <= quota
  {
    var turns := seq(maxTokens, _ => GOES_ON);
    FirstStopIs(turns, maxTokens, maxTokens);
    assert Decoded(promptTokens, turns, maxTokens) == promptTokens + maxTokens - 1;
  }

  /** A prompt of three tokens and two to generate are refused with a context of four, which would do. */
  method RefusedThoughItSuffices() returns (status: Status, usage: Option<nat>)
    ensures status == ContextExceeded && forall turns: seq<Turn> :: 2 <= |turns| ==> Decoded(3, turns, 2) <= 4
  {
    BudgetExactly(3, 2, 4);
    var text, decoded;
    status, text, usage, decoded := Prompt(false, 3, 2, 4, [GOES_ON, GOES_ON]);
  }
}
