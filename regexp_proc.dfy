/**
  The shape of `RegexpProc.wrap`: the word-class tokens of at least three characters
  that the compiled pattern finds something in are wrapped, each distinct one once.
  The compiled pattern itself is the parameter `matches`: `matches(token)` stands for
  `RegexpProc.regexp.findall(token)` being non-empty.
 */
module RegexpProc {
  import opened Tokenizer
  import opened Censor

  /** The tokens `wrap` stores in its dict, in order: at least three characters long and matched. */
  function Candidates(tokens: seq<string>, matches: string -> bool): (stored: seq<string>)
    ensures forall w :: w in stored <==> w in tokens && |w| >= 3 && matches(w)
  {
    if tokens == [] then []
    else
      var last := tokens[|tokens| - 1];
      Candidates(tokens[..|tokens| - 1], matches) + (if |last| >= 3 && matches(last) then [last] else [])
  }

  /** One more token read: it is stored when it is long enough and matched. */
  lemma CandidatesStep(tokens: seq<string>, i: nat, matches: string -> bool)
    requires i < |tokens|
    ensures Candidates(tokens[..i + 1], matches)
         == Candidates(tokens[..i], matches) + (if |tokens[i]| >= 3 && matches(tokens[i]) then [tokens[i]] else [])
  {
    assert tokens[..i + 1][..i] == tokens[..i];
  }

  /** When no token is both long enough and matched, nothing is stored. */
  lemma {:induction false} CandidatesNone(tokens: seq<string>, matches: string -> bool)
    requires forall k :: 0 <= k < |tokens| ==> |tokens[k]| < 3 || !matches(tokens[k])
    ensures Candidates(tokens, matches) == []
  {
    if tokens != [] {
      CandidatesNone(tokens[..|tokens| - 1], matches);
    }
  }

  /**
    The first loop of `RegexpProc.wrap`: the dict of wrapped forms of the tokens that are
    at least three characters long and match, and its keys in insertion order.
   */
  method Collect(tokens: seq<string>, matches: string -> bool, prefix: string, suffix: string)
    returns (table: map<string, string>, order: seq<string>)
    ensures order == Dedup(Candidates(tokens, matches))
    ensures table == WrapTable(Candidates(tokens, matches), prefix, suffix)
  {
    table := map[];
    order := [];
    ghost var stored: seq<string> := [];
    var i := 0;
    assert tokens[..0] == [];
    while i < |tokens|
      invariant 0 <= i <= |tokens|
      invariant stored == Candidates(tokens[..i], matches)
      invariant order == Dedup(stored)
      invariant table == WrapTable(stored, prefix, suffix)
    {
      var word := tokens[i];
      CandidatesStep(tokens, i, matches);
      if |word| < 3 {
        i := i + 1;
        continue;
      }
      if matches(word) {
        Store(stored, word, prefix, suffix);
        if word !in table {
          order := order + [word];
        }
        table := table[word := Wrapped(word, prefix, suffix)];
        stored := stored + [word];
      }
      i := i + 1;
    }
    assert tokens[..i] == tokens;
  }

  /**
    `RegexpProc.wrap(text, (prefix, suffix))`: every distinct matching token of at least
    three characters, in the order it first occurs, is replaced everywhere by
    `prefix + token + suffix`; a text without such a token comes back unchanged.
   */
  method Wrap(text: string, matches: string -> bool, prefix: string, suffix: string) returns (r: string)
    ensures r == ApplyItems(text, Dedup(Candidates(Tokens(text), matches)),
                            WrapTable(Candidates(Tokens(text), matches), prefix, suffix))
    ensures forall w :: w in Dedup(Candidates(Tokens(text), matches)) <==> w in Tokens(text) && |w| >= 3 && matches(w)
    ensures (forall k :: 0 <= k < |Tokens(text)| ==> |Tokens(text)[k]| < 3 || !matches(Tokens(text)[k])) ==> r == text
  {
    var tokens := FindAll(text);
    var table, order := Collect(tokens, matches, prefix, suffix);
    r := SubstituteItems(text, order, table);
    if forall k :: 0 <= k < |tokens| ==> |tokens[k]| < 3 || !matches(tokens[k]) {
      CandidatesNone(tokens, matches);
    }
  }
}
