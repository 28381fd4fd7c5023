/** Provider prices in micro-USD per thousand tokens, rounded up to whole micro-USD. */
module Pricing {
  function EmbeddingRate(model: string): nat {
    if model == "text-embedding-3-small" then 20 else if model == "fake" then 0 else 130
  }

  function EmbeddingCostMicros(model: string, tokens: nat): nat {
    Ceiling(tokens * EmbeddingRate(model))
  }

  /** Thousandths rounded up. */
  function Ceiling(x: nat): nat {
    (x + 999) / 1000
  }

  /** Rounding up is the least whole number of micro-USD that covers the exact price. */
  lemma CeilingBounds(x: nat)
    ensures x <= 1000 * Ceiling(x) < x + 1000
  {
  }

  /** The price of embeddings: 130, 20 or 0 micro-USD per thousand tokens, rounded up; unknown models cost the most. */
  lemma EmbeddingPrice(model: string, tokens: nat)
    ensures var exact := tokens * (if model == "text-embedding-3-small" then 20 else if model == "fake" then 0 else 130);
      exact <= 1000 * EmbeddingCostMicros(model, tokens) < exact + 1000
  {
    hide Ceiling;
    CeilingBounds(tokens * EmbeddingRate(model));
  }

  /** Splitting a bill in two never makes it cheaper, and costs at most one unit more. */
  lemma CeilingOfSum(x: nat, y: nat)
    ensures Ceiling(x + y) <= Ceiling(x) + Ceiling(y) <= Ceiling(x + y) + 1
  {
    CeilingBounds(x);
    CeilingBounds(y);
    CeilingBounds(x + y);
  }

  function Sum(ns: seq<nat>): nat {
    if ns == [] then 0 else ns[0] + Sum(ns[1..])
  }

  function Bills(model: string, tokens: seq<nat>): nat {
    if tokens == [] then 0 else EmbeddingCostMicros(model, tokens[0]) + Bills(model, tokens[1..])
  }

  /** The rounding loss of billing in batches. */
  lemma {:induction false} BatchingCosts(model: string, tokens: seq<nat>)
    requires tokens != []
    ensures EmbeddingCostMicros(model, Sum(tokens)) <= Bills(model, tokens)
         <= EmbeddingCostMicros(model, Sum(tokens)) + |tokens| - 1
  {
    if |tokens| == 1 {
      assert tokens[1..] == [];
    } else {
      BatchingCosts(model, tokens[1..]);
      var rate := EmbeddingRate(model);
      CeilingOfSum(tokens[0] * rate, Sum(tokens[1..]) * rate);
      assert (tokens[0] + Sum(tokens[1..])) * rate == tokens[0] * rate + Sum(tokens[1..]) * rate;
    }
  }

  // -------------------------------------------------------------------- chat prices

  function ChatInputRate(model: string): nat {
    if model == "gpt-4o-mini" then 150
    else if model == "claude-3-5-sonnet-latest" then 3000
    else if model == "fake" then 0
    else 2500
  }

  function ChatOutputRate(model: string): nat {
    if model == "gpt-4o-mini" then 600
    else if model == "claude-3-5-sonnet-latest" then 15000
    else if model == "fake" then 0
    else 10000
  }

  function ChatCostMicros(model: string, promptTokens: nat, completionTokens: nat): nat {
    Ceiling(promptTokens * ChatInputRate(model) + completionTokens * ChatOutputRate(model))
  }

  /** The price of a chat, per thousand tokens read and written; unknown models cost what gpt-4o costs. */
  lemma ChatPrice(model: string, p: nat, c: nat)
    ensures var exact :=
        if model == "gpt-4o-mini" then 150 * p + 600 * c
        else if model == "claude-3-5-sonnet-latest" then 3000 * p + 15000 * c
        else if model == "fake" then 0
        else 2500 * p + 10000 * c;
      exact <= 1000 * ChatCostMicros(model, p, c) < exact + 1000
  {
    hide Ceiling;
    CeilingBounds(p * ChatInputRate(model) + c * ChatOutputRate(model));
  }

  /** Two chats cost as much as one with their tokens together, up to one micro-USD of rounding. */
  lemma ChatsAddUp(model: string, p: nat, c: nat, q: nat, d: nat)
    ensures ChatCostMicros(model, p + q, c + d) <= ChatCostMicros(model, p, c) + ChatCostMicros(model, q, d)
         <= ChatCostMicros(model, p + q, c + d) + 1
  {
    hide ChatInputRate, ChatOutputRate, Ceiling;
    var i, o := ChatInputRate(model), ChatOutputRate(model);
    assert (p + q) * i + (c + d) * o == (p * i + c * o) + (q * i + d * o);
    CeilingOfSum(p * i + c * o, q * i + d * o);
  }
}
