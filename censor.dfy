/**
  The substitution half shared by the censor operations: a run of `text.replace`
  calls over a list of matched words, and the wrap table that both `wrap`
  operations fill (a Python dict, so its keys keep their first-insertion order).
 */
module Censor {
  import opened PyStr

  /** `text` after `text = text.replace(w, repl)` for each `w` of `words` in turn. */
  function ReplaceEach(text: string, words: seq<string>, repl: string): string
  {
    if words == [] then text
    else Replace(ReplaceEach(text, words[..|words| - 1], repl), words[|words| - 1], repl)
  }

  /** `'%s%s%s' % (prefix, word, suffix)`. */
  function Wrapped(word: string, prefix: string, suffix: string): string
  {
    prefix + word + suffix
  }

  /** The dict built by `words[w] = '%s%s%s' % (prefix, w, suffix)` for each matched `w`. */
  function WrapTable(matched: seq<string>, prefix: string, suffix: string): map<string, string>
  {
    map w | w in matched :: Wrapped(w, prefix, suffix)
  }

  /**
    The keys of a dict into which the words of `ws` are stored one after the other:
    every word once, in the order of its first occurrence.
   */
  function Dedup(ws: seq<string>): (keys: seq<string>)
    ensures forall w :: w in keys <==> w in ws
  {
    if ws == [] then []
    else
      var d := Dedup(ws[..|ws| - 1]);
      if ws[|ws| - 1] in d then d else d + [ws[|ws| - 1]]
  }

  /**
    Storing one more word: the key list grows only when the word is new to the dict,
    and the word's entry is (re)set to its wrapped form.
   */
  lemma Store(ws: seq<string>, w: string, prefix: string, suffix: string)
    ensures Dedup(ws + [w]) == if w in WrapTable(ws, prefix, suffix) then Dedup(ws) else Dedup(ws) + [w]
    ensures WrapTable(ws + [w], prefix, suffix) == WrapTable(ws, prefix, suffix)[w := Wrapped(w, prefix, suffix)]
  {
    assert (ws + [w])[..|ws + [w]| - 1] == ws;
  }

  /**
    The loop `for word in matched: words[word] = '%s%s%s' % (prefix, word, suffix)` on an
    empty dict: the table it builds and its keys in insertion order.
   */
  method FillTable(matched: seq<string>, prefix: string, suffix: string)
    returns (table: map<string, string>, order: seq<string>)
    ensures order == Dedup(matched)
    ensures table == WrapTable(matched, prefix, suffix)
  {
    table := map[];
    order := [];
    var i := 0;
    assert matched[..0] == [];
    while i < |matched|
      invariant 0 <= i <= |matched|
      invariant order == Dedup(matched[..i])
      invariant table == WrapTable(matched[..i], prefix, suffix)
    {
      var word := matched[i];
      assert matched[..i + 1] == matched[..i] + [word];
      Store(matched[..i], word, prefix, suffix);
      if word !in table {
        order := order + [word];
      }
      table := table[word := Wrapped(word, prefix, suffix)];
      i := i + 1;
    }
    assert matched[..i] == matched;
  }

  /** No dict key repeats. */
  lemma {:induction false} DedupDistinct(ws: seq<string>)
    ensures forall i, j :: 0 <= i < j < |Dedup(ws)| ==> Dedup(ws)[i] != Dedup(ws)[j]
  {
    if ws != [] {
      var init := ws[..|ws| - 1];
      DedupDistinct(init);
      assert ws == init + [ws[|ws| - 1]];
    }
  }

  /** A sequence without repeats has as many distinct elements as it is long. */
  lemma {:induction false} DistinctCard(ks: seq<string>)
    requires forall i, j :: 0 <= i < j < |ks| ==> ks[i] != ks[j]
    ensures |set w | w in ks| == |ks|
  {
    if ks != [] {
      var init, last := ks[..|ks| - 1], ks[|ks| - 1];
      DistinctCard(init);
      assert (set w | w in ks) == (set w | w in init) + {last};
      assert last !in init by {
        forall i | 0 <= i < |init| ensures init[i] != last {
          assert ks[i] != ks[|ks| - 1];
        }
      }
    }
  }

  /**
    The dict has one entry per stored word and `items()` visits each entry exactly once:
    its size is the length of the key order.
   */
  lemma WrapTableSize(matched: seq<string>, prefix: string, suffix: string)
    ensures |WrapTable(matched, prefix, suffix).Keys| == |Dedup(matched)|
  {
    DedupDistinct(matched);
    DistinctCard(Dedup(matched));
    assert WrapTable(matched, prefix, suffix).Keys == set w | w in Dedup(matched);
  }

  /**
    `text` after `for word, wrapped in words.items(): text = text.replace(word, wrapped)`
    when the dict holds `table` and its keys come in the order `keys`.
   */
  function ApplyItems(text: string, keys: seq<string>, table: map<string, string>): string
    requires forall k :: 0 <= k < |keys| ==> keys[k] in table
  {
    if keys == [] then text
    else
      var last := keys[|keys| - 1];
      Replace(ApplyItems(text, keys[..|keys| - 1], table), last, table[last])
  }

  /** Replacing words none of which occurs in the text leaves the text unchanged. */
  lemma {:induction false} ReplaceEachAbsent(text: string, words: seq<string>, repl: string)
    requires forall k :: 0 <= k < |words| ==> words[k] != [] && !Occurs(text, words[k])
    ensures ReplaceEach(text, words, repl) == text
  {
    if words != [] {
      ReplaceEachAbsent(text, words[..|words| - 1], repl);
      ReplaceAbsent(text, words[|words| - 1], repl);
    }
  }

  /** Applying dict items none of whose keys occurs in the text leaves the text unchanged. */
  lemma {:induction false} ApplyItemsAbsent(text: string, keys: seq<string>, table: map<string, string>)
    requires forall k :: 0 <= k < |keys| ==> keys[k] in table && keys[k] != [] && !Occurs(text, keys[k])
    ensures ApplyItems(text, keys, table) == text
  {
    if keys != [] {
      ApplyItemsAbsent(text, keys[..|keys| - 1], table);
      ReplaceAbsent(text, keys[|keys| - 1], table[keys[|keys| - 1]]);
    }
  }

  /** The loop `for word, wrapped in words.items(): text = text.replace(word, wrapped)`. */
  method SubstituteItems(text: string, keys: seq<string>, table: map<string, string>) returns (r: string)
    requires forall k :: 0 <= k < |keys| ==> keys[k] in table
    ensures r == ApplyItems(text, keys, table)
  {
    r := text;
    var k := 0;
    while k < |keys|
      invariant 0 <= k <= |keys|
      invariant r == ApplyItems(text, keys[..k], table)
    {
      assert keys[..k + 1][..k] == keys[..k];
      r := Replace(r, keys[k], table[keys[k]]);
      k := k + 1;
    }
    assert keys[..k] == keys;
  }
}
