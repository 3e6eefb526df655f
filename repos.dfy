/**
 * Resolving the command text into the repositories to search. The registry
 * maps a repository name to the label its beginner-friendly issues carry.
 */
module Repos {
  import opened Wrappers
  import opened Text

  type Registry = map<string, string>

  /**
   * The repositories to search, each with the label to search for. `None` is a
   * label lookup that missed (JavaScript's `undefined`).
   */
  type Targets = map<string, Option<string>>

  const TokenSeparator := ','

  /** `registry[name]`, which is `undefined` for a name that is not a key. */
  function Lookup(registry: Registry, name: string): Option<string> {
    if name in registry then Some(registry[name]) else None
  }

  /** A token is recognised when its trimmed form is a registry key. */
  predicate Recognised(registry: Registry, token: string) {
    Trim(token) in registry
  }

  /** Empty text selects the whole registry, every label found. */
  function AllTargets(registry: Registry): (targets: Targets)
    ensures targets.Keys == registry.Keys
    ensures forall name :: name in targets ==> targets[name] == Some(registry[name])
  {
    map name | name in registry :: Some(registry[name])
  }

  /**
   * The entries kept from a token list: each recognised token, stored under the
   * token as typed (untrimmed), with the label looked up by that same token.
   */
  function KeptTargets(tokens: seq<string>, registry: Registry): Targets {
    map token | token in tokens && Recognised(registry, token) :: Lookup(registry, token)
  }

  /** The tokens that each produce one rejection notice, in token order. */
  function RejectedTokens(tokens: seq<string>, registry: Registry): seq<string> {
    if tokens == [] then []
    else
      var last := tokens[|tokens| - 1];
      RejectedTokens(tokens[..|tokens| - 1], registry) + (if Recognised(registry, last) then [] else [last])
  }

  /** The comma-separated tokens of the command text, untrimmed. */
  function Tokens(text: string): seq<string> {
    Split(text, TokenSeparator)
  }

  /** The repositories the command text selects. */
  function ResolvedTargets(text: string, registry: Registry): Targets {
    if text == "" then AllTargets(registry) else KeptTargets(Tokens(text), registry)
  }

  /** The tokens of the command text that are rejected, in order. */
  function ResolvedRejections(text: string, registry: Registry): seq<string> {
    if text == "" then [] else RejectedTokens(Tokens(text), registry)
  }

  /**
   * Resolves the command text. For non-empty text, the loop over the
   * comma-separated tokens either keeps a token or posts one rejection notice
   * for it; the notices are returned in the order they are posted.
   */
  method ResolveRepos(text: string, registry: Registry) returns (targets: Targets, rejected: seq<string>)
    ensures text == "" ==> targets == AllTargets(registry) && rejected == []
    ensures text != "" ==> targets == KeptTargets(Tokens(text), registry)
    ensures text != "" ==> rejected == RejectedTokens(Tokens(text), registry)
  {
    if text == "" {
      return AllTargets(registry), [];
    }
    var tokens := Tokens(text);
    targets, rejected := map[], [];
    for k := 0 to |tokens|
      invariant targets == KeptTargets(tokens[..k], registry)
      invariant rejected == RejectedTokens(tokens[..k], registry)
    {
      var token := tokens[k];
      assert tokens[..k + 1] == tokens[..k] + [token];
      assert tokens[..k + 1][..k] == tokens[..k];
      if Trim(token) in registry {
        targets := targets[token := Lookup(registry, token)];
      } else {
        rejected := rejected + [token];
      }
    }
    assert tokens[..|tokens|] == tokens;
  }

  /** A token appears among the rejected ones exactly when it is an unrecognised token of the list. */
  lemma {:induction false} RejectedTokensMembership(tokens: seq<string>, registry: Registry, token: string)
    ensures token in RejectedTokens(tokens, registry) <==> token in tokens && !Recognised(registry, token)
  {
    if tokens != [] {
      var init := tokens[..|tokens| - 1];
      RejectedTokensMembership(init, registry, token);
      assert tokens == init + [tokens[|tokens| - 1]];
    }
  }

  /**
   * Each occurrence of an unrecognised token yields exactly one notice, and a
   * recognised token yields none.
   */
  lemma {:induction false} RejectedTokensCount(tokens: seq<string>, registry: Registry, token: string)
    ensures multiset(RejectedTokens(tokens, registry))[token]
         == if Recognised(registry, token) then 0 else multiset(tokens)[token]
  {
    if tokens != [] {
      var init := tokens[..|tokens| - 1];
      RejectedTokensCount(init, registry, token);
      assert tokens == init + [tokens[|tokens| - 1]];
    }
  }

  /**
   * Every token of the list is either kept or rejected, never both, and only
   * recognised tokens are kept.
   */
  lemma KeptOrRejected(tokens: seq<string>, registry: Registry, i: nat)
    requires i < |tokens|
    ensures tokens[i] in KeptTargets(tokens, registry) <==> Recognised(registry, tokens[i])
    ensures tokens[i] in RejectedTokens(tokens, registry) <==> !Recognised(registry, tokens[i])
  {
    RejectedTokensMembership(tokens, registry, tokens[i]);
  }

  /** Nothing is kept that is not a token whose trimmed form is a registry key. */
  lemma KeptAreRecognised(tokens: seq<string>, registry: Registry, name: string)
    requires name in KeptTargets(tokens, registry)
    ensures name in tokens && Trim(name) in registry
  {
  }

  /**
   * The label of a kept entry is found only when the token as typed is itself a
   * registry key; a recognised token with surrounding whitespace is kept
   * without a label.
   */
  lemma KeptLabel(tokens: seq<string>, registry: Registry, name: string)
    requires name in KeptTargets(tokens, registry)
    ensures KeptTargets(tokens, registry)[name] == Lookup(registry, name)
    ensures KeptTargets(tokens, registry)[name].Some? <==> name in registry
  {
  }

  /**
   * Two registered names typed as "a, b": the first is kept with its label, the
   * second is kept under " b", whose label lookup misses; nothing is rejected.
   */
  lemma PaddedTokenLosesLabel(registry: Registry, a: string, b: string)
    requires a in registry && b in registry && " " + b !in registry
    requires TokenSeparator !in a && TokenSeparator !in b
    requires Trim(a) == a && Trim(b) == b
    ensures var tokens := Split(a + ", " + b, TokenSeparator);
      && KeptTargets(tokens, registry) == map[a := Some(registry[a]), " " + b := None]
      && RejectedTokens(tokens, registry) == []
  {
    var padded := " " + b;
    var tokens := [a, padded];
    assert Split(a + ", " + b, TokenSeparator) == tokens by {
      assert Join(tokens, TokenSeparator) == a + ", " + b;
      SplitJoin(tokens, TokenSeparator);
    }
    assert Trim(padded) == b by {
      assert padded[1..] == b;
      assert TrimStart(padded) == TrimStart(b);
    }
    assert KeptTargets(tokens, registry).Keys == {a, padded};
    assert RejectedTokens(tokens, registry) == [] by {
      assert Recognised(registry, a) && Recognised(registry, padded);
      assert tokens[..1] == [a];
      assert [a][..0] == [];
      assert RejectedTokens([a], registry) == RejectedTokens([], registry);
      assert RejectedTokens(tokens, registry) == RejectedTokens([a], registry);
    }
  }
}
