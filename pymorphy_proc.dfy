/**
  The fuzzy, lexicon-driven scanner `PymorphyProc`: the fragment generator `_gen` and
  the three censor operations `test`, `replace` and `wrap` built on it. The lexicon,
  which the source reads from the database, is a parameter.
 */
module PymorphyProc {
  import PyStr
  import opened Levenshtein
  import opened Tokenizer
  import opened Censor

  /**
    The test `_gen` applies to offset `p` of `datum` against `word`. The source's
    `distance(fragment, word) <= len(word) * 0.25` is `4 * distance <= len(word)` over
    the integers; the position rule `part <= 2 or part + len(word) < len(word)` is kept
    as written.
   */
  predicate Accepts(datum: string, word: string, p: nat)
    requires p <= |datum|
  {
    4 * EditDistance(PyStr.Window(datum, p, |word|), word) <= |word|
    && (p <= 2 || p + |word| < |word|)
  }

  /** Offset `p` of `datum` is one `_gen` visits for `word`, and the test accepts it there. */
  predicate Hit(datum: string, word: string, p: int)
  {
    |word| <= |datum| + 2 && 0 <= p < |datum| && Accepts(datum, word, p)
  }

  /** What `_gen` yields for `datum` and `word` over the offsets `0 .. k - 1`. */
  function AtOffsets(datum: string, word: string, k: nat): seq<string>
    requires k <= |datum|
  {
    if k == 0 then []
    else
      AtOffsets(datum, word, k - 1)
      + (if Accepts(datum, word, k - 1) then [PyStr.Window(datum, k - 1, |word|)] else [])
  }

  /** What `_gen` yields for `datum` over the lexicon words `words`. */
  function ForUnit(datum: string, words: seq<string>): seq<string>
  {
    if words == [] then []
    else
      var word := words[|words| - 1];
      ForUnit(datum, words[..|words| - 1])
      + (if |word| <= |datum| + 2 then AtOffsets(datum, word, |datum|) else [])
  }

  /** What `_gen` yields for the prepared units `units`. */
  function ForUnits(units: seq<string>, words: seq<string>): seq<string>
  {
    if units == [] then []
    else ForUnits(units[..|units| - 1], words) + ForUnit(units[|units| - 1], words)
  }

  /** The fragments `_gen(text)` yields, in order, for the lexicon `words`. */
  function Fragments(text: string, words: seq<string>): seq<string>
  {
    ForUnits(Units(text), words)
  }

  /** The body of the innermost loop of `_gen`: the fragment at `part` and whether it is yielded. */
  method Probe(datum: string, word: string, part: nat) returns (fragment: string, accepted: bool)
    requires part <= |datum|
    ensures fragment == PyStr.Window(datum, part, |word|)
    ensures accepted == Accepts(datum, word, part)
  {
    fragment := PyStr.Window(datum, part, |word|);
    var d := Distance(fragment, word);
    accepted := 4 * d <= |word| && (part <= 2 || part + |word| < |word|);
  }

  /** The innermost loop of `_gen`: the offsets of `datum` for one lexicon word. */
  method ScanOffsets(datum: string, word: string) returns (found: seq<string>)
    ensures found == AtOffsets(datum, word, |datum|)
  {
    found := [];
    var part := 0;
    while part < |datum|
      invariant 0 <= part <= |datum|
      invariant found == AtOffsets(datum, word, part)
    {
      var fragment, accepted := Probe(datum, word, part);
      if accepted {
        found := found + [fragment];
      }
      part := part + 1;
    }
  }

  /** The middle loop of `_gen`: the lexicon words at most two characters longer than `datum`. */
  method ScanUnit(datum: string, words: seq<string>) returns (found: seq<string>)
    ensures found == ForUnit(datum, words)
  {
    found := [];
    var j := 0;
    while j < |words|
      invariant 0 <= j <= |words|
      invariant found == ForUnit(datum, words[..j])
    {
      var word := words[j];
      assert words[..j + 1][..j] == words[..j];
      if |word| <= |datum| + 2 {
        var atOffsets := ScanOffsets(datum, word);
        found := found + atOffsets;
      }
      j := j + 1;
    }
    assert words[..j] == words;
  }

  /**
    `_gen(text)`: for every prepared unit, every lexicon word at most two characters
    longer than the unit and every offset of the unit, the clamped slice of the word's
    length at that offset, when it is close enough to the word.
   */
  method Gen(text: string, words: seq<string>) returns (fragments: seq<string>)
    ensures fragments == Fragments(text, words)
  {
    var units := Prepare(text);
    fragments := [];
    var i := 0;
    while i < |units|
      invariant 0 <= i <= |units|
      invariant fragments == ForUnits(units[..i], words)
    {
      assert units[..i + 1][..i] == units[..i];
      var found := ScanUnit(units[i], words);
      fragments := fragments + found;
      i := i + 1;
    }
    assert units[..i] == units;
  }

  /** `PymorphyProc.test(text)`: the number of fragments `_gen` yields. */
  method Test(text: string, words: seq<string>) returns (count: nat)
    ensures count == |Fragments(text, words)|
    ensures count > 0 <==> exists i, j, p :: 0 <= i < |Units(text)| && 0 <= j < |words| && Hit(Units(text)[i], words[j], p)
  {
    var fragments := Gen(text, words);
    count := |fragments|;
    if count > 0 {
      ForUnitsSound(Units(text), words, fragments[0]);
    }
    if exists i, j, p :: 0 <= i < |Units(text)| && 0 <= j < |words| && Hit(Units(text)[i], words[j], p) {
      var i, j, p :| 0 <= i < |Units(text)| && 0 <= j < |words| && Hit(Units(text)[i], words[j], p);
      ForUnitsComplete(Units(text), words, i, j, p, PyStr.Window(Units(text)[i], p, |words[j]|));
    }
  }

  /** `PymorphyProc.replace(text, repl)`: each yielded fragment in turn is replaced everywhere by `repl`. */
  method Replace(text: string, words: seq<string>, repl: string) returns (r: string)
    ensures r == ReplaceEach(text, Fragments(text, words), repl)
    ensures Fragments(text, words) == [] ==> r == text
  {
    var fragments := Gen(text, words);
    r := text;
    var k := 0;
    while k < |fragments|
      invariant 0 <= k <= |fragments|
      invariant r == ReplaceEach(text, fragments[..k], repl)
    {
      assert fragments[..k + 1][..k] == fragments[..k];
      r := PyStr.Replace(r, fragments[k], repl);
      k := k + 1;
    }
    assert fragments[..k] == fragments;
  }

  /**
    `PymorphyProc.wrap(text, (prefix, suffix))`: every distinct yielded fragment, in the
    order it was first yielded, is replaced everywhere by `prefix + fragment + suffix`.
   */
  method Wrap(text: string, words: seq<string>, prefix: string, suffix: string) returns (r: string)
    ensures r == ApplyItems(text, Dedup(Fragments(text, words)), WrapTable(Fragments(text, words), prefix, suffix))
    ensures Fragments(text, words) == [] ==> r == text
  {
    var fragments := Gen(text, words);
    var table, order := FillTable(fragments, prefix, suffix);
    r := SubstituteItems(text, order, table);
  }

  // ---------------------------------------------------------------------------
  // What `_gen` yields.

  /** `f` comes from the offset loop exactly when the test accepts an offset below `k` whose slice is `f`. */
  lemma {:induction false} AtOffsetsHit(datum: string, word: string, k: nat, f: string)
    requires k <= |datum|
    ensures f in AtOffsets(datum, word, k) <==>
            exists p :: 0 <= p < k && Accepts(datum, word, p) && f == PyStr.Window(datum, p, |word|)
  {
    if k > 0 {
      AtOffsetsHit(datum, word, k - 1, f);
      var init := AtOffsets(datum, word, k - 1);
      var last := if Accepts(datum, word, k - 1) then [PyStr.Window(datum, k - 1, |word|)] else [];
      assert AtOffsets(datum, word, k) == init + last;
      if f in init {
        var p :| 0 <= p < k - 1 && Accepts(datum, word, p) && f == PyStr.Window(datum, p, |word|);
        assert 0 <= p < k;
      } else if f in last {
        assert Accepts(datum, word, k - 1) && f == PyStr.Window(datum, k - 1, |word|);
      }
      if exists p :: 0 <= p < k && Accepts(datum, word, p) && f == PyStr.Window(datum, p, |word|) {
        var p :| 0 <= p < k && Accepts(datum, word, p) && f == PyStr.Window(datum, p, |word|);
        if p < k - 1 {
          assert f in init;
        } else {
          assert f in last;
        }
      }
    }
  }

  lemma {:induction false} ForUnitSound(datum: string, words: seq<string>, f: string)
    requires f in ForUnit(datum, words)
    ensures exists j, p :: 0 <= j < |words| && Hit(datum, words[j], p) && f == PyStr.Window(datum, p, |words[j]|)
  {
    var init, word := words[..|words| - 1], words[|words| - 1];
    var right := if |word| <= |datum| + 2 then AtOffsets(datum, word, |datum|) else [];
    assert ForUnit(datum, words) == ForUnit(datum, init) + right;
    if f in ForUnit(datum, init) {
      ForUnitSound(datum, init, f);
      var j, p :| 0 <= j < |init| && Hit(datum, init[j], p) && f == PyStr.Window(datum, p, |init[j]|);
      assert words[j] == init[j];
    } else {
      AtOffsetsHit(datum, word, |datum|, f);
      var p :| 0 <= p < |datum| && Accepts(datum, word, p) && f == PyStr.Window(datum, p, |word|);
      assert Hit(datum, words[|words| - 1], p);
    }
  }

  lemma {:induction false} ForUnitComplete(datum: string, words: seq<string>, j: nat, p: nat, f: string)
    requires j < |words| && Hit(datum, words[j], p) && f == PyStr.Window(datum, p, |words[j]|)
    ensures f in ForUnit(datum, words)
  {
    var init, word := words[..|words| - 1], words[|words| - 1];
    var right := if |word| <= |datum| + 2 then AtOffsets(datum, word, |datum|) else [];
    assert ForUnit(datum, words) == ForUnit(datum, init) + right;
    if j < |init| {
      assert init[j] == words[j];
      ForUnitComplete(datum, init, j, p, f);
    } else {
      AtOffsetsHit(datum, word, |datum|, f);
    }
  }

  /** `f` comes from the unit `datum` exactly when some short-enough word and some offset produce it. */
  lemma ForUnitHit(datum: string, words: seq<string>, f: string)
    ensures f in ForUnit(datum, words) <==>
            exists j, p :: 0 <= j < |words| && Hit(datum, words[j], p) && f == PyStr.Window(datum, p, |words[j]|)
  {
    if f in ForUnit(datum, words) {
      ForUnitSound(datum, words, f);
    }
    if exists j, p :: 0 <= j < |words| && Hit(datum, words[j], p) && f == PyStr.Window(datum, p, |words[j]|) {
      var j, p :| 0 <= j < |words| && Hit(datum, words[j], p) && f == PyStr.Window(datum, p, |words[j]|);
      ForUnitComplete(datum, words, j, p, f);
    }
  }

  lemma {:induction false} ForUnitsSound(units: seq<string>, words: seq<string>, f: string)
    requires f in ForUnits(units, words)
    ensures exists i, j, p :: 0 <= i < |units| && 0 <= j < |words| && Hit(units[i], words[j], p)
                              && f == PyStr.Window(units[i], p, |words[j]|)
  {
    var init, datum := units[..|units| - 1], units[|units| - 1];
    assert ForUnits(units, words) == ForUnits(init, words) + ForUnit(datum, words);
    if f in ForUnits(init, words) {
      ForUnitsSound(init, words, f);
      var i, j, p :| 0 <= i < |init| && 0 <= j < |words| && Hit(init[i], words[j], p)
                     && f == PyStr.Window(init[i], p, |words[j]|);
      assert units[i] == init[i];
    } else {
      ForUnitSound(datum, words, f);
      var j, p :| 0 <= j < |words| && Hit(datum, words[j], p) && f == PyStr.Window(datum, p, |words[j]|);
      assert units[|units| - 1] == datum;
    }
  }

  lemma {:induction false} ForUnitsComplete(units: seq<string>, words: seq<string>, i: nat, j: nat, p: nat, f: string)
    requires i < |units| && j < |words| && Hit(units[i], words[j], p) && f == PyStr.Window(units[i], p, |words[j]|)
    ensures f in ForUnits(units, words)
  {
    var init, datum := units[..|units| - 1], units[|units| - 1];
    assert ForUnits(units, words) == ForUnits(init, words) + ForUnit(datum, words);
    if i < |init| {
      assert init[i] == units[i];
      ForUnitsComplete(init, words, i, j, p, f);
    } else {
      ForUnitComplete(datum, words, j, p, f);
    }
  }

  lemma ForUnitsHitAt(units: seq<string>, words: seq<string>, f: string)
    ensures f in ForUnits(units, words) <==>
            exists i, j, p :: 0 <= i < |units| && 0 <= j < |words| && Hit(units[i], words[j], p)
                              && f == PyStr.Window(units[i], p, |words[j]|)
  {
    if f in ForUnits(units, words) {
      ForUnitsSound(units, words, f);
    }
    if exists i, j, p :: 0 <= i < |units| && 0 <= j < |words| && Hit(units[i], words[j], p)
                         && f == PyStr.Window(units[i], p, |words[j]|) {
      var i, j, p :| 0 <= i < |units| && 0 <= j < |words| && Hit(units[i], words[j], p)
                     && f == PyStr.Window(units[i], p, |words[j]|);
      ForUnitsComplete(units, words, i, j, p, f);
    }
  }

  /**
    A fragment is yielded exactly when it is the clamped slice `datum[p : p + len(w)]`
    of some unit `datum`, for some lexicon word `w` at most two characters longer than
    the unit and some offset `0 <= p < len(datum)` the test accepts.
   */
  lemma ForUnitsHit(units: seq<string>, words: seq<string>)
    ensures forall f :: f in ForUnits(units, words) <==>
              exists i, j, p :: 0 <= i < |units| && 0 <= j < |words| && Hit(units[i], words[j], p)
                                && f == PyStr.Window(units[i], p, |words[j]|)
  {
    forall f {
      ForUnitsHitAt(units, words, f);
    }
  }

  /**
    Every yielded fragment is within a quarter of some lexicon word's length of that
    word; for words of 4 to 7 letters that is at most one edit.
   */
  lemma FragmentsTolerance(text: string, words: seq<string>, f: string)
    requires f in Fragments(text, words)
    ensures exists j :: 0 <= j < |words| && 4 * EditDistance(f, words[j]) <= |words[j]|
                        && (|words[j]| < 8 ==> EditDistance(f, words[j]) <= 1)
                        && |f| <= |words[j]|
  {
    ForUnitsSound(Units(text), words, f);
    var i, j, p :| 0 <= i < |Units(text)| && 0 <= j < |words| && Hit(Units(text)[i], words[j], p)
                   && f == PyStr.Window(Units(text)[i], p, |words[j]|);
    assert 4 * EditDistance(f, words[j]) <= |words[j]|;
  }

  /**
    Every yielded fragment is the clamped slice `datum[p : p + len(w)]` of a prepared
    unit `datum`, for a lexicon word `w` at most two characters longer than the unit,
    taken at one of the offsets 0, 1 and 2.
   */
  lemma FragmentsForm(text: string, words: seq<string>, f: string)
    requires f in Fragments(text, words)
    ensures exists i, j, p :: 0 <= i < |Units(text)| && 0 <= j < |words| && Hit(Units(text)[i], words[j], p)
                              && p <= 2 && |words[j]| <= |Units(text)[i]| + 2
                              && f == PyStr.Window(Units(text)[i], p, |words[j]|)
  {
    ForUnitsSound(Units(text), words, f);
  }

  /**
    The second disjunct of the position rule never holds, so only offsets 0, 1 and 2 are
    accepted; the tolerance is `len(word) // 4` edits, so a 4-letter word accepts one
    edit and not two.
   */
  lemma PositionRule(datum: string, word: string, p: nat)
    requires p <= |datum|
    ensures Accepts(datum, word, p) <==> 4 * EditDistance(PyStr.Window(datum, p, |word|), word) <= |word| && p <= 2
    ensures Accepts(datum, word, p) <==> EditDistance(PyStr.Window(datum, p, |word|), word) <= |word| / 4 && p <= 2
    ensures |word| == 4 ==> (Accepts(datum, word, p) <==> EditDistance(PyStr.Window(datum, p, |word|), word) <= 1 && p <= 2)
  {
  }

  /** A slice cut short by the end of the unit is at least the missing characters away from the word. */
  lemma ClampedSliceDistance(datum: string, word: string, p: nat)
    requires p <= |datum| && |datum| < p + |word|
    ensures EditDistance(PyStr.Window(datum, p, |word|), word) >= p + |word| - |datum|
  {
    LengthDifferenceBound(PyStr.Window(datum, p, |word|), word);
  }

  lemma {:induction false} AtOffsetsAtMostThree(datum: string, word: string, k: nat)
    requires k <= |datum|
    ensures |AtOffsets(datum, word, k)| <= 3 && |AtOffsets(datum, word, k)| <= k
  {
    if k > 0 {
      AtOffsetsAtMostThree(datum, word, k - 1);
      if k > 3 {
        assert !Accepts(datum, word, k - 1);
      }
    }
  }

  lemma {:induction false} ForUnitBound(datum: string, words: seq<string>)
    ensures |ForUnit(datum, words)| <= 3 * |words|
  {
    if words != [] {
      ForUnitBound(datum, words[..|words| - 1]);
      AtOffsetsAtMostThree(datum, words[|words| - 1], |datum|);
    }
  }

  /**
    Because only the first three offsets are accepted, `_gen` yields at most three
    fragments per unit and lexicon word.
   */
  lemma {:induction false} ForUnitsBound(units: seq<string>, words: seq<string>)
    ensures |ForUnits(units, words)| <= 3 * |units| * |words|
  {
    if units != [] {
      ForUnitsBound(units[..|units| - 1], words);
      ForUnitBound(units[|units| - 1], words);
      assert 3 * |units| * |words| == 3 * (|units| - 1) * |words| + 3 * |words|;
    }
  }

  /** With an empty lexicon nothing is yielded, so `test` is 0 and `replace` and `wrap` change nothing. */
  lemma {:induction false} EmptyLexicon(units: seq<string>)
    ensures ForUnits(units, []) == []
  {
    if units != [] {
      EmptyLexicon(units[..|units| - 1]);
    }
  }

  /** An empty text has no units, so nothing is yielded: `test` is 0 and `replace` and `wrap` change nothing. */
  lemma EmptyText(words: seq<string>)
    ensures Units("") == [] && Fragments("", words) == []
  {
  }

  lemma ExactUnitMatch(datum: string, word: string)
    requires |word| > 0 && datum == word
    ensures Hit(datum, word, 0) && PyStr.Window(datum, 0, |word|) == word
  {
    SelfDistance(word);
    assert PyStr.Window(datum, 0, |word|) == word[0..|word|] == word;
  }

  /**
    A lexicon word longer than two characters that stands in the text as a token of
    its own is yielded, so `test` is positive.
   */
  lemma ExactMatchDetected(text: string, words: seq<string>, i: nat, j: nat)
    requires i < |Tokens(text)| && j < |words| && Tokens(text)[i] == words[j] && |words[j]| > 2
    ensures words[j] in Fragments(text, words)
  {
    var w := words[j];
    LongTokenIsUnit(Tokens(text), i);
    var u :| 0 <= u < |Units(text)| && Units(text)[u] == w;
    ExactUnitMatch(w, w);
    ForUnitsComplete(Units(text), words, u, j, 0, w);
  }

  /**
    With the lexicon `["пример"]`, the text `"пр1мер"` (one substituted letter;
    `6 // 4` allows one edit) is reported.
   */
  lemma SubstitutedLetterDetected()
    ensures "пр1мер" in Fragments("пр1мер", ["пример"])
  {
    var text, word := "пр1мер", "пример";
    assert AllWordChars(text) by {
      forall k | 0 <= k < |text| ensures IsWordChar(text[k]) {
      }
    }
    SingleWordUnit(text);
    SubstitutedLetterHit();
    ForUnitsComplete(Units(text), [word], 0, 0, 0, text);
  }

  /** `"пр1мер"` is one substitution away from `"пример"` and is accepted at offset 0. */
  lemma SubstitutedLetterHit()
    ensures Hit("пр1мер", "пример", 0) && PyStr.Window("пр1мер", 0, 6) == "пр1мер"
  {
    var text, word := "пр1мер", "пример";
    SubstitutionBound("пр", '1', 'и', "мер");
    assert "пр" + ['1'] + "мер" == text && "пр" + ['и'] + "мер" == word;
    assert PyStr.Window(text, 0, |word|) == text;
  }

  /**
    `_gen` compares windows of the word's length at offsets 0 to 2, not whole tokens: with
    the lexicon `["пример"]`, the text `"прамерка"` reports its first six letters
    `"прамер"`, although the whole token is too far from the word.
   */
  lemma WindowPrefixDetected()
    ensures "прамер" in Fragments("прамерка", ["пример"])
    ensures 4 * EditDistance("прамерка", "пример") > |"пример"|
  {
    var text, word := "прамерка", "пример";
    assert AllWordChars(text) by {
      forall k | 0 <= k < |text| ensures IsWordChar(text[k]) {
      }
    }
    SingleWordUnit(text);
    WindowPrefixHit();
    ForUnitsComplete(Units(text), [word], 0, 0, 0, "прамер");
    LengthDifferenceBound(text, word);
  }

  /** The window of six letters at offset 0 of `"прамерка"` is one substitution from `"пример"`. */
  lemma WindowPrefixHit()
    ensures Hit("прамерка", "пример", 0) && PyStr.Window("прамерка", 0, 6) == "прамер"
  {
    var text, word := "прамерка", "пример";
    SubstitutionBound("пр", 'а', 'и', "мер");
    assert "пр" + ['а'] + "мер" == "прамер" && "пр" + ['и'] + "мер" == word;
    assert PyStr.Window(text, 0, |word|) == "прамер";
  }

  /** The text `"ab c"` has the two short tokens `"ab"` and `"c"`, glued into the one unit `"abc"`. */
  lemma GluedUnits()
    ensures Tokens("ab c") == ["ab", "c"] && Units("ab c") == ["abc"]
  {
    assert "ab c" == "ab" + [' '] + "c";
    TokensSeparator("ab", ' ', "c");
    assert AllWordChars("ab") && AllWordChars("c");
    TokensRun("ab");
    TokensRun("c");
    SegmentShort(["ab", "c"]);
    assert PyStr.Concat(["ab", "c"]) == "abc";
  }

  /** Against `"abc"`, the unit `"abc"` yields itself at offset 0 and nothing at offsets 1 and 2. */
  lemma GluedOffsets()
    ensures AtOffsets("abc", "abc", 3) == ["abc"]
  {
    var u := "abc";
    ExactUnitMatch(u, u);
    ClampedSliceDistance(u, u, 1);
    ClampedSliceDistance(u, u, 2);
    assert !Accepts(u, u, 1) && !Accepts(u, u, 2);
  }

  /** `_gen("ab c")` with the lexicon `["abc"]` yields the glued unit `"abc"` once. */
  lemma GluedFragments()
    ensures Fragments("ab c", ["abc"]) == ["abc"]
  {
    GluedUnits();
    GluedOffsets();
    var u := "abc";
    assert ["abc"][..0] == [];
    assert ForUnit(u, ["abc"]) == [u];
    assert [u][..0] == [];
  }

  /** `"abc"` does not occur in `"ab c"`. */
  lemma GluedAbsent()
    ensures !PyStr.Occurs("ab c", "abc")
  {
    var text: string := "ab c";
    forall i | 0 <= i <= |text| ensures !PyStr.OccursAt(text, "abc", i) {
      if i == 0 { assert text[2] != "abc"[2]; }
      if i == 1 { assert text[1] != "abc"[0]; }
    }
  }

  /**
    Gluing short tokens can produce a fragment that does not occur in the text: with the
    lexicon `["abc"]` the text `"ab c"` is reported by `test`, yet `replace` finds nothing
    to replace and returns the text unchanged.
   */
  lemma GluedFragmentNotReplaced(repl: string)
    ensures Fragments("ab c", ["abc"]) == ["abc"]
    ensures ReplaceEach("ab c", Fragments("ab c", ["abc"]), repl) == "ab c"
  {
    GluedFragments();
    var text: string := "ab c";
    GluedAbsent();
    ReplaceEachAbsent(text, ["abc"], repl);
  }

  /**
    `wrap` on the same input finds no wrapped form to substitute either: the dict holds
    the one key `"abc"`, which does not occur in `"ab c"`.
   */
  lemma GluedFragmentNotWrapped(prefix: string, suffix: string)
    ensures Fragments("ab c", ["abc"]) == ["abc"]
    ensures ApplyItems("ab c", Dedup(Fragments("ab c", ["abc"])),
                       WrapTable(Fragments("ab c", ["abc"]), prefix, suffix)) == "ab c"
  {
    GluedFragments();
    var text: string := "ab c";
    var f := ["abc"];
    assert f[..0] == [];
    assert Dedup(f) == f;
    GluedAbsent();
    ApplyItemsAbsent(text, f, WrapTable(f, prefix, suffix));
  }

  /** Offsets none of which the test accepts yield nothing. */
  lemma {:induction false} AtOffsetsNone(datum: string, word: string, k: nat)
    requires k <= |datum|
    requires forall p :: 0 <= p < k ==> !Accepts(datum, word, p)
    ensures AtOffsets(datum, word, k) == []
  {
    if k > 0 {
      AtOffsetsNone(datum, word, k - 1);
    }
  }

  /**
    A lexicon word of at most two characters standing alone in the text can be missed:
    the short tokens of `"xy zw ab"` are glued into the one unit `"xyzwab"`, whose
    windows at offsets 0 to 2 are `"xy"`, `"yz"` and `"zw"`, none equal to `"ab"` (a
    two-letter word tolerates no edit), and the offset 4 where `"ab"` sits is past the
    position rule.
   */
  lemma ShortWordMissed()
    ensures Units("xy zw ab") == ["xyzwab"]
    ensures Fragments("xy zw ab", ["ab"]) == []
  {
    ShortWordUnits();
    ShortWordOffsets();
    var u, w := "xyzwab", "ab";
    assert [w][..0] == [];
    assert ForUnit(u, [w]) == [];
    assert [u][..0] == [];
  }

  /** The text `"xy zw ab"` has three short tokens, glued into the one unit `"xyzwab"`. */
  lemma ShortWordUnits()
    ensures Units("xy zw ab") == ["xyzwab"]
  {
    assert "xy zw ab" == "xy" + [' '] + ("zw" + [' '] + "ab");
    TokensSeparator("xy", ' ', "zw" + [' '] + "ab");
    TokensSeparator("zw", ' ', "ab");
    assert AllWordChars("xy") && AllWordChars("zw") && AllWordChars("ab");
    TokensRun("xy");
    TokensRun("zw");
    TokensRun("ab");
    SegmentShort(["xy", "zw", "ab"]);
    assert PyStr.Concat(["xy", "zw", "ab"]) == "xyzwab";
  }

  /** Against `"ab"`, no offset of the unit `"xyzwab"` is accepted. */
  lemma ShortWordOffsets()
    ensures AtOffsets("xyzwab", "ab", 6) == []
  {
    var u, w := "xyzwab", "ab";
    forall p | 0 <= p < |u| ensures !Accepts(u, w, p) {
      if p <= 2 {
        var f := PyStr.Window(u, p, |w|);
        assert f[0] != w[0];
        if EditDistance(f, w) == 0 {
          ZeroDistanceEqual(f, w);
        }
      }
    }
    AtOffsetsNone(u, w, |u|);
  }
}
