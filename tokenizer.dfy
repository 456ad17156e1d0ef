/**
  Word extraction for the scanners: the maximal runs of the character class
  `[А-яA-z0-9\-\*]` (as `re.findall` of `word_pattern` returns them), and the
  re-segmentation that keeps tokens longer than two characters apart and glues
  consecutive short tokens into one scanning unit.
 */
module Tokenizer {
  import opened PyStr

  /**
    Membership in `[А-яA-z0-9\-\*]`, taken literally: the code points U+0410 to U+044F
    (so without `Ё` and `ё`), U+0041 to U+007A (so with `[`, `\`, `]`, `^`, `_` and
    the backtick), the digits, `-` and `*`.
   */
  predicate IsWordChar(c: char)
  {
    ('А' <= c <= 'я') || ('A' <= c <= 'z') || ('0' <= c <= '9') || c == '-' || c == '*'
  }

  predicate AllWordChars(s: string)
  {
    forall k :: 0 <= k < |s| ==> IsWordChar(s[k])
  }

  /** The characters of `text` that belong to the word class, in order. */
  function WordCharsOf(text: string): string
  {
    if text == [] then []
    else if IsWordChar(text[0]) then [text[0]] + WordCharsOf(text[1..])
    else WordCharsOf(text[1..])
  }

  /** The run read so far, as a list of zero or one pieces. */
  function Flush(cur: string): seq<string>
  {
    if cur == [] then [] else [cur]
  }

  /** The maximal word-class runs of `cur + text`, where `cur` is the run being read. */
  function TokensFrom(text: string, cur: string): seq<string>
    decreases |text|
  {
    if text == [] then Flush(cur)
    else if IsWordChar(text[0]) then TokensFrom(text[1..], cur + [text[0]])
    else Flush(cur) + TokensFrom(text[1..], [])
  }

  /** `re.findall(word_pattern, text)`: the maximal word-class runs of `text`, left to right. */
  function Tokens(text: string): seq<string>
  {
    TokensFrom(text, [])
  }

  /** The scanner behind `re.findall(word_pattern, text)`. */
  method FindAll(text: string) returns (tokens: seq<string>)
    ensures tokens == Tokens(text)
  {
    tokens := [];
    var cur: string := [];
    var i := 0;
    while i < |text|
      invariant 0 <= i <= |text|
      invariant tokens + TokensFrom(text[i..], cur) == Tokens(text)
    {
      assert text[i..][1..] == text[i + 1..];
      if IsWordChar(text[i]) {
        cur := cur + [text[i]];
      } else {
        assert tokens + (Flush(cur) + TokensFrom(text[i + 1..], [])) == tokens + Flush(cur) + TokensFrom(text[i + 1..], []);
        tokens := tokens + Flush(cur);
        cur := [];
      }
      i := i + 1;
    }
    tokens := tokens + Flush(cur);
  }

  lemma {:induction false} TokensFromWellFormed(text: string, cur: string)
    requires AllWordChars(cur)
    ensures forall k :: 0 <= k < |TokensFrom(text, cur)| ==>
              TokensFrom(text, cur)[k] != [] && AllWordChars(TokensFrom(text, cur)[k])
    decreases |text|
  {
    if text != [] {
      if IsWordChar(text[0]) {
        TokensFromWellFormed(text[1..], cur + [text[0]]);
      } else {
        TokensFromWellFormed(text[1..], []);
      }
    }
  }

  /** Every token is non-empty and made of word-class characters only. */
  lemma TokensWellFormed(text: string)
    ensures forall k :: 0 <= k < |Tokens(text)| ==> Tokens(text)[k] != [] && AllWordChars(Tokens(text)[k])
  {
    TokensFromWellFormed(text, []);
  }

  lemma {:induction false} TokensFromConcat(text: string, cur: string)
    ensures Concat(TokensFrom(text, cur)) == cur + WordCharsOf(text)
    decreases |text|
  {
    if text == [] {
      assert cur + [] == cur;
    } else if IsWordChar(text[0]) {
      TokensFromConcat(text[1..], cur + [text[0]]);
    } else {
      TokensFromConcat(text[1..], []);
      ConcatAppend(Flush(cur), TokensFrom(text[1..], []));
    }
  }

  /** The tokens hold exactly the word-class characters of the text, in order. */
  lemma TokensConcat(text: string)
    ensures Concat(Tokens(text)) == WordCharsOf(text)
  {
    TokensFromConcat(text, []);
  }

  lemma {:induction false} TokensFromSeparator(u: string, c: char, v: string, cur: string)
    requires !IsWordChar(c)
    ensures TokensFrom(u + [c] + v, cur) == TokensFrom(u, cur) + Tokens(v)
    decreases |u|
  {
    if u == [] {
      assert u + [c] + v == [c] + v && ([c] + v)[1..] == v;
    } else {
      assert (u + [c] + v)[0] == u[0] && (u + [c] + v)[1..] == u[1..] + [c] + v;
      if IsWordChar(u[0]) {
        TokensFromSeparator(u[1..], c, v, cur + [u[0]]);
      } else {
        TokensFromSeparator(u[1..], c, v, []);
      }
    }
  }

  /** A character outside the word class separates the tokens on its two sides. */
  lemma TokensSeparator(u: string, c: char, v: string)
    requires !IsWordChar(c)
    ensures Tokens(u + [c] + v) == Tokens(u) + Tokens(v)
  {
    TokensFromSeparator(u, c, v, []);
  }

  lemma {:induction false} TokensFromRun(s: string, cur: string)
    requires AllWordChars(s)
    ensures TokensFrom(s, cur) == Flush(cur + s)
    decreases |s|
  {
    if s == [] {
      assert cur + s == cur;
    } else {
      TokensFromRun(s[1..], cur + [s[0]]);
      assert cur + [s[0]] + s[1..] == cur + s;
    }
  }

  /** A non-empty run of word-class characters is a single token. */
  lemma TokensRun(s: string)
    requires s != [] && AllWordChars(s)
    ensures Tokens(s) == [s]
  {
    TokensFromRun(s, []);
    assert [] + s == s;
  }

  /** A text without word-class characters has no tokens. */
  lemma {:induction false} TokensNone(text: string)
    requires forall k :: 0 <= k < |text| ==> !IsWordChar(text[k])
    ensures Tokens(text) == []
    decreases |text|
  {
    if text != [] {
      TokensNone(text[1..]);
      TokensSeparator([], text[0], text[1..]);
      assert [] + [text[0]] + text[1..] == text;
    }
  }

  // ---------------------------------------------------------------------------
  // Re-segmentation of the tokens into scanning units.

  /**
    The units of `ts` when the short tokens read so far are glued into `cur`: a token
    longer than 2 is a unit on its own, every maximal run of tokens of length at most 2
    is glued into one unit, and nothing empty is kept.
   */
  function SegmentFrom(ts: seq<string>, cur: string): seq<string>
  {
    if ts == [] then Flush(cur)
    else if |ts[0]| > 2 then Flush(cur) + [ts[0]] + SegmentFrom(ts[1..], [])
    else SegmentFrom(ts[1..], cur + ts[0])
  }

  /** The scanning units of the token list `ts`. */
  function Segment(ts: seq<string>): seq<string>
  {
    SegmentFrom(ts, [])
  }

  /** What one piece of `data.split(" ")` adds to `prepared_data`. */
  function Piece(datum: string): string
  {
    if |datum| > 2 then " " + datum + " " else datum
  }

  /** `prepared_data` after the loop over `pieces`, before the double blanks are collapsed. */
  function Build(pieces: seq<string>): string
  {
    if pieces == [] then [] else Piece(pieces[0]) + Build(pieces[1..])
  }

  lemma {:induction false} BuildSnoc(pieces: seq<string>, p: string)
    ensures Build(pieces + [p]) == Build(pieces) + Piece(p)
  {
    if pieces == [] {
      assert [] + [p] == [p];
    } else {
      assert (pieces + [p])[1..] == pieces[1..] + [p];
      BuildSnoc(pieces[1..], p);
    }
  }

  lemma PieceAppend(prepared: string, datum: string)
    ensures |datum| > 2 ==> prepared + " " + datum + " " == prepared + Piece(datum)
    ensures |datum| <= 2 ==> prepared + datum == prepared + Piece(datum)
  {
  }

  lemma BuildPrefix(pieces: seq<string>, k: nat)
    requires k < |pieces|
    ensures Build(pieces[..k + 1]) == Build(pieces[..k]) + Piece(pieces[k])
  {
    assert pieces[..k + 1] == pieces[..k] + [pieces[k]];
    BuildSnoc(pieces[..k], pieces[k]);
  }

  /** Collapsing double blanks does not change the non-empty pieces of a split on blanks. */
  lemma {:induction false} CollapseBlanks(s: string, cur: string)
    ensures FilterNonEmpty(SplitFrom(Replace(s, "  ", " "), ' ', cur)) == FilterNonEmpty(SplitFrom(s, ' ', cur))
    decreases |s|
  {
    if s != [] {
      if "  " <= s {
        var rest := s[2..];
        CollapseBlanks(rest, []);
        assert Replace(s, "  ", " ") == " " + Replace(rest, "  ", " ");
        assert SplitFrom(s, ' ', cur) == [cur] + ([[]] + SplitFrom(rest, ' ', [])) by {
          assert s[1..][1..] == rest;
        }
        FilterNonEmptyAppend([cur], [[]] + SplitFrom(rest, ' ', []));
        FilterNonEmptyAppend([[]], SplitFrom(rest, ' ', []));
        FilterNonEmptyAppend([cur], SplitFrom(Replace(rest, "  ", " "), ' ', []));
      } else {
        var r := Replace(s[1..], "  ", " ");
        assert Replace(s, "  ", " ") == [s[0]] + r;
        assert ([s[0]] + r)[1..] == r;
        if s[0] == ' ' {
          CollapseBlanks(s[1..], []);
          FilterNonEmptyAppend([cur], SplitFrom(r, ' ', []));
          FilterNonEmptyAppend([cur], SplitFrom(s[1..], ' ', []));
        } else {
          CollapseBlanks(s[1..], cur + [s[0]]);
        }
      }
    }
  }

  /** A long piece between blanks ends the piece being read and is a piece of its own. */
  lemma SplitLongPiece(cur: string, t: string, b: string)
    requires ' ' !in t
    ensures SplitFrom([' '] + (t + ([' '] + b)), ' ', cur) == [cur] + ([t] + SplitFrom(b, ' ', []))
  {
    assert ([' '] + (t + ([' '] + b)))[1..] == t + ([' '] + b);
    SplitFromSkip(t, [' '] + b, ' ', []);
    assert [] + t == t;
    assert ([' '] + b)[1..] == b;
  }

  lemma FilterLongPiece(cur: string, t: string, rest: seq<string>)
    requires t != []
    ensures FilterNonEmpty([cur] + ([t] + rest)) == Flush(cur) + [t] + FilterNonEmpty(rest)
  {
    FilterNonEmptyAppend([cur], [t] + rest);
    FilterNonEmptyAppend([t], rest);
    assert [cur][1..] == [] && [t][1..] == [];
  }

  /** Splitting the built string on blanks and dropping empty pieces gives the units. */
  lemma {:induction false} BuildSegments(ts: seq<string>, cur: string)
    requires forall k :: 0 <= k < |ts| ==> ' ' !in ts[k]
    ensures FilterNonEmpty(SplitFrom(Build(ts), ' ', cur)) == SegmentFrom(ts, cur)
  {
    if ts != [] {
      var t, b := ts[0], Build(ts[1..]);
      if |t| > 2 {
        BuildSegments(ts[1..], []);
        assert Build(ts) == [' '] + (t + ([' '] + b));
        SplitLongPiece(cur, t, b);
        FilterLongPiece(cur, t, SplitFrom(b, ' ', []));
      } else {
        SplitFromSkip(t, b, ' ', cur);
        BuildSegments(ts[1..], cur + t);
      }
    }
  }

  /** `data.split(" ")` of `data = " ".join(tokens)` builds the same string as the tokens themselves. */
  lemma BuildJoinSplit(ts: seq<string>)
    requires forall k :: 0 <= k < |ts| ==> ' ' !in ts[k]
    ensures Build(Split(Join(ts, ' '), ' ')) == Build(ts)
  {
    if ts == [] {
      assert Split(Join(ts, ' '), ' ') == [[]];
    } else {
      SplitJoin(ts, ' ');
    }
  }

  /**
    The literal pipeline of `_gen`: join the tokens with blanks, split on blanks, build
    `prepared_data`, collapse double blanks, split on blanks and drop empty pieces.
   */
  function Prepared(ts: seq<string>): seq<string>
  {
    FilterNonEmpty(Split(Replace(Build(Split(Join(ts, ' '), ' ')), "  ", " "), ' '))
  }

  /** The literal pipeline computes the units of the reference segmentation. */
  lemma PreparedSegments(ts: seq<string>)
    requires forall k :: 0 <= k < |ts| ==> ' ' !in ts[k]
    ensures Prepared(ts) == Segment(ts)
  {
    BuildJoinSplit(ts);
    CollapseBlanks(Build(ts), []);
    BuildSegments(ts, []);
  }

  lemma {:induction false} SegmentFromWellFormed(ts: seq<string>, cur: string)
    requires forall k :: 0 <= k < |ts| ==> AllWordChars(ts[k])
    requires AllWordChars(cur)
    ensures forall k :: 0 <= k < |SegmentFrom(ts, cur)| ==>
              SegmentFrom(ts, cur)[k] != [] && AllWordChars(SegmentFrom(ts, cur)[k])
  {
    if ts != [] {
      if |ts[0]| > 2 {
        SegmentFromWellFormed(ts[1..], []);
      } else {
        assert AllWordChars(ts[0]);
        SegmentFromWellFormed(ts[1..], cur + ts[0]);
      }
    }
  }

  /** Units are non-empty and, when the tokens are, made of word-class characters. */
  lemma SegmentWellFormed(ts: seq<string>)
    requires forall k :: 0 <= k < |ts| ==> AllWordChars(ts[k])
    ensures forall k :: 0 <= k < |Segment(ts)| ==> Segment(ts)[k] != [] && AllWordChars(Segment(ts)[k])
  {
    SegmentFromWellFormed(ts, []);
  }

  lemma {:induction false} SegmentFromConcat(ts: seq<string>, cur: string)
    ensures Concat(SegmentFrom(ts, cur)) == cur + Concat(ts)
  {
    if ts == [] {
      ConcatSingle(cur);
      assert cur + [] == cur;
    } else {
      var t, rest := ts[0], ts[1..];
      assert Concat(ts) == t + Concat(rest);
      if |t| > 2 {
        var tail := SegmentFrom(rest, []);
        SegmentFromConcat(rest, []);
        assert SegmentFrom(ts, cur) == Flush(cur) + [t] + tail;
        ConcatLongStep(cur, t, tail, Concat(rest));
      } else {
        assert SegmentFrom(ts, cur) == SegmentFrom(rest, cur + t);
        SegmentFromConcat(rest, cur + t);
      }
    }
  }

  lemma ConcatSingle(t: string)
    ensures Concat([t]) == t && Concat(Flush(t)) == t
  {
    assert [t][1..] == [];
  }

  lemma ConcatLongStep(cur: string, t: string, tail: seq<string>, rest: string)
    requires Concat(tail) == [] + rest
    ensures Concat(Flush(cur) + [t] + tail) == cur + (t + rest)
  {
    ConcatAppend(Flush(cur) + [t], tail);
    ConcatAppend(Flush(cur), [t]);
    ConcatSingle(cur);
    ConcatSingle(t);
    assert [] + rest == rest;
  }

  /** Re-segmentation neither loses nor adds characters. */
  lemma SegmentConcat(ts: seq<string>)
    ensures Concat(Segment(ts)) == Concat(ts)
  {
    SegmentFromConcat(ts, []);
  }

  lemma {:induction false} SegmentFromLong(xs: seq<string>, t: string, ys: seq<string>, cur: string)
    requires |t| > 2
    ensures SegmentFrom(xs + [t] + ys, cur) == SegmentFrom(xs, cur) + [t] + Segment(ys)
  {
    if xs == [] {
      assert xs + [t] + ys == [t] + ys && ([t] + ys)[1..] == ys;
    } else {
      assert (xs + [t] + ys)[0] == xs[0] && (xs + [t] + ys)[1..] == xs[1..] + [t] + ys;
      if |xs[0]| > 2 {
        SegmentFromLong(xs[1..], t, ys, []);
      } else {
        SegmentFromLong(xs[1..], t, ys, cur + xs[0]);
      }
    }
  }

  /** A token longer than 2 is a unit of its own and separates the units around it. */
  lemma SegmentLong(xs: seq<string>, t: string, ys: seq<string>)
    requires |t| > 2
    ensures Segment(xs + [t] + ys) == Segment(xs) + [t] + Segment(ys)
  {
    SegmentFromLong(xs, t, ys, []);
  }

  lemma {:induction false} SegmentFromShort(ts: seq<string>, cur: string)
    requires forall k :: 0 <= k < |ts| ==> |ts[k]| <= 2
    ensures SegmentFrom(ts, cur) == Flush(cur + Concat(ts))
  {
    if ts == [] {
      assert cur + [] == cur;
    } else {
      SegmentFromShort(ts[1..], cur + ts[0]);
      assert cur + ts[0] + Concat(ts[1..]) == cur + Concat(ts);
    }
  }

  /** A run of tokens of length at most 2 is glued into one unit (none when all are empty). */
  lemma SegmentShort(ts: seq<string>)
    requires forall k :: 0 <= k < |ts| ==> |ts[k]| <= 2
    ensures Segment(ts) == Flush(Concat(ts))
  {
    SegmentFromShort(ts, []);
    assert [] + Concat(ts) == Concat(ts);
  }

  /** Every token longer than 2 is one of the units. */
  lemma LongTokenIsUnit(ts: seq<string>, i: nat)
    requires i < |ts| && |ts[i]| > 2
    ensures ts[i] in Segment(ts)
  {
    assert ts == ts[..i] + [ts[i]] + ts[i + 1..];
    SegmentLong(ts[..i], ts[i], ts[i + 1..]);
  }

  /** The scanning units of `text`. */
  function Units(text: string): seq<string>
  {
    Segment(Tokens(text))
  }

  /** A text that is one run of more than two word characters is its own single unit. */
  lemma SingleWordUnit(text: string)
    requires |text| > 2 && AllWordChars(text)
    ensures Units(text) == [text]
  {
    TokensRun(text);
    assert [] + [text] + [] == [text];
    SegmentLong([], text, []);
  }

  /** The loop of `_gen` that builds `prepared_data` from the pieces of `data.split(" ")`. */
  method BuildPieces(pieces: seq<string>) returns (prepared: string)
    ensures prepared == Build(pieces)
  {
    prepared := [];
    var k := 0;
    while k < |pieces|
      invariant 0 <= k <= |pieces|
      invariant prepared == Build(pieces[..k])
    {
      var datum := pieces[k];
      BuildPrefix(pieces, k);
      PieceAppend(prepared, datum);
      if |datum| > 2 {
        prepared := prepared + " " + datum + " ";
      } else {
        prepared := prepared + datum;
      }
      k := k + 1;
    }
    assert pieces[..k] == pieces;
  }

  /** The literal pipeline on the tokens of `text` gives its units, with their properties. */
  lemma PreparedUnits(text: string)
    ensures Prepared(Tokens(text)) == Units(text)
    ensures forall k :: 0 <= k < |Units(text)| ==> Units(text)[k] != [] && AllWordChars(Units(text)[k])
    ensures Concat(Units(text)) == Concat(Tokens(text))
  {
    var tokens := Tokens(text);
    TokensWellFormed(text);
    assert forall k :: 0 <= k < |tokens| ==> ' ' !in tokens[k] by {
      forall k | 0 <= k < |tokens| ensures ' ' !in tokens[k] {
        assert !IsWordChar(' ');
      }
    }
    PreparedSegments(tokens);
    SegmentWellFormed(tokens);
    SegmentConcat(tokens);
  }

  /**
    The first half of `_gen`: extract the tokens, then build and split `prepared_data`.
    The units are the reference segmentation of the tokens; they are non-empty, made of
    word-class characters, and hold the tokens' characters in order.
   */
  method Prepare(text: string) returns (units: seq<string>)
    ensures units == Units(text)
    ensures forall k :: 0 <= k < |units| ==> units[k] != [] && AllWordChars(units[k])
    ensures Concat(units) == Concat(Tokens(text))
  {
    var tokens := FindAll(text);
    var data := Join(tokens, ' ');
    var pieces := Split(data, ' ');
    var prepared := BuildPieces(pieces);
    prepared := Replace(prepared, "  ", " ");
    units := FilterNonEmpty(Split(prepared, ' '));
    assert units == Prepared(tokens);
    PreparedUnits(text);
  }
}
