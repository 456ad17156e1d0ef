/**
  Models of the few Python `str` and list built-ins that the scanner relies on:
  `''.join`, `sep.join`, `str.split(sep)` with a one-character separator,
  `filter(lambda x: x, ...)` on a list of strings, the clamped slice `s[p:p+n]` and
  `str.replace(old, new)`.
 */
module PyStr {

  /** `''.join(ss)`: the strings of `ss` one after the other. */
  function Concat(ss: seq<string>): string
  {
    if ss == [] then [] else ss[0] + Concat(ss[1..])
  }

  lemma {:induction false} ConcatAppend(xs: seq<string>, ys: seq<string>)
    ensures Concat(xs + ys) == Concat(xs) + Concat(ys)
  {
    if xs != [] {
      assert (xs + ys)[0] == xs[0];
      assert (xs + ys)[1..] == xs[1..] + ys;
      ConcatAppend(xs[1..], ys);
    } else {
      assert xs + ys == ys;
    }
  }

  /** `sep.join(ts)` for a one-character separator. */
  function Join(ts: seq<string>, sep: char): string
  {
    if ts == [] then []
    else if |ts| == 1 then ts[0]
    else ts[0] + [sep] + Join(ts[1..], sep)
  }

  /** `(cur + s).split(sep)` where `cur` holds no separator: the piece being read is `cur`. */
  function SplitFrom(s: string, sep: char, cur: string): (r: seq<string>)
    ensures |r| >= 1
    decreases |s|
  {
    if s == [] then [cur]
    else if s[0] == sep then [cur] + SplitFrom(s[1..], sep, [])
    else SplitFrom(s[1..], sep, cur + [s[0]])
  }

  /** `s.split(sep)`: the pieces between separators, empty ones included; never an empty list. */
  function Split(s: string, sep: char): seq<string>
  {
    SplitFrom(s, sep, [])
  }

  /** `list(filter(lambda x: x, ss))`: the non-empty strings of `ss`, in order. */
  function FilterNonEmpty(ss: seq<string>): (r: seq<string>)
    ensures forall k :: 0 <= k < |r| ==> r[k] != []
    ensures forall x :: x in r <==> x in ss && x != []
  {
    if ss == [] then []
    else if ss[0] == [] then FilterNonEmpty(ss[1..])
    else [ss[0]] + FilterNonEmpty(ss[1..])
  }

  lemma {:induction false} FilterNonEmptyAppend(xs: seq<string>, ys: seq<string>)
    ensures FilterNonEmpty(xs + ys) == FilterNonEmpty(xs) + FilterNonEmpty(ys)
  {
    if xs != [] {
      assert (xs + ys)[0] == xs[0];
      assert (xs + ys)[1..] == xs[1..] + ys;
      FilterNonEmptyAppend(xs[1..], ys);
    } else {
      assert xs + ys == ys;
    }
  }

  /** Reading characters without a separator only extends the current piece. */
  lemma {:induction false} SplitFromSkip(t: string, x: string, sep: char, cur: string)
    requires sep !in t
    ensures SplitFrom(t + x, sep, cur) == SplitFrom(x, sep, cur + t)
  {
    if t != [] {
      assert (t + x)[0] == t[0];
      assert (t + x)[1..] == t[1..] + x;
      assert cur + [t[0]] + t[1..] == cur + t;
      SplitFromSkip(t[1..], x, sep, cur + [t[0]]);
    } else {
      assert t + x == x;
      assert cur + t == cur;
    }
  }

  /** Splitting undoes joining when no piece holds the separator and there is at least one piece. */
  lemma {:induction false} SplitJoin(ts: seq<string>, sep: char)
    requires ts != []
    requires forall k :: 0 <= k < |ts| ==> sep !in ts[k]
    ensures Split(Join(ts, sep), sep) == ts
  {
    if |ts| == 1 {
      SplitFromSkip(ts[0], [], sep, []);
      assert ts[0] + [] == ts[0];
    } else {
      var rest := Join(ts[1..], sep);
      assert Join(ts, sep) == ts[0] + ([sep] + rest);
      SplitFromSkip(ts[0], [sep] + rest, sep, []);
      assert [] + ts[0] == ts[0];
      assert ([sep] + rest)[0] == sep;
      assert ([sep] + rest)[1..] == rest;
      SplitJoin(ts[1..], sep);
      assert ts == [ts[0]] + ts[1..];
    }
  }

  lemma {:induction false} JoinSplitFrom(s: string, sep: char, cur: string)
    ensures Join(SplitFrom(s, sep, cur), sep) == cur + s
    decreases |s|
  {
    if s == [] {
    } else if s[0] == sep {
      var tail := SplitFrom(s[1..], sep, []);
      JoinSplitFrom(s[1..], sep, []);
      assert ([cur] + tail)[1..] == tail;
      assert cur + [sep] + s[1..] == cur + s by { assert s == [s[0]] + s[1..]; }
    } else {
      JoinSplitFrom(s[1..], sep, cur + [s[0]]);
      assert cur + [s[0]] + s[1..] == cur + s by { assert s == [s[0]] + s[1..]; }
    }
  }

  /** Joining undoes splitting: `sep.join(s.split(sep)) == s`. */
  lemma JoinSplit(s: string, sep: char)
    ensures Join(Split(s, sep), sep) == s
  {
    JoinSplitFrom(s, sep, []);
  }

  /** The clamped Python slice `s[p:p+n]` for `0 <= p <= len(s)`. */
  function Window(s: string, p: nat, n: nat): (r: string)
    requires p <= |s|
    ensures |r| <= n && p + |r| <= |s|
    ensures r == s[p..p + |r|]
    ensures p + n <= |s| ==> |r| == n
    ensures p + n > |s| ==> p + |r| == |s|
  {
    s[p..if p + n <= |s| then p + n else |s|]
  }

  /** `pat` occurs in `s` starting at index `i`. */
  predicate OccursAt(s: string, pat: string, i: int)
  {
    0 <= i && i + |pat| <= |s| && s[i..i + |pat|] == pat
  }

  /** `pat` occurs somewhere in `s`. */
  predicate Occurs(s: string, pat: string)
  {
    exists i :: 0 <= i <= |s| && OccursAt(s, pat, i)
  }

  /**
    `s.replace(old, new)`: every occurrence of a non-empty `pat`, scanned from the
    left and without overlap, becomes `repl`; an empty `pat` puts `repl` before every
    character and at the end.
   */
  function Replace(s: string, pat: string, repl: string): string
    decreases |s|
  {
    if pat == [] then (if s == [] then repl else repl + [s[0]] + Replace(s[1..], pat, repl))
    else if s == [] then []
    else if pat <= s then repl + Replace(s[|pat|..], pat, repl)
    else [s[0]] + Replace(s[1..], pat, repl)
  }

  /** Replacing a non-empty text that does not occur leaves the string unchanged. */
  lemma {:induction false} ReplaceAbsent(s: string, pat: string, repl: string)
    requires pat != [] && !Occurs(s, pat)
    ensures Replace(s, pat, repl) == s
    decreases |s|
  {
    if s != [] {
      assert !(pat <= s) by {
        if pat <= s {
          assert OccursAt(s, pat, 0);
        }
      }
      assert !Occurs(s[1..], pat) by {
        if Occurs(s[1..], pat) {
          var i :| 0 <= i <= |s[1..]| && OccursAt(s[1..], pat, i);
          assert 0 <= i && i + |pat| <= |s| - 1;
          assert s[i + 1..i + 1 + |pat|] == s[1..][i..i + |pat|];
          assert OccursAt(s, pat, i + 1);
        }
      }
      ReplaceAbsent(s[1..], pat, repl);
    }
  }

  /** Replacing a text by itself changes nothing. */
  lemma {:induction false} ReplaceSelf(s: string, pat: string)
    ensures Replace(s, pat, pat) == s
    decreases |s|
  {
    if s != [] {
      assert [s[0]] + s[1..] == s;
      if pat == [] {
        ReplaceSelf(s[1..], pat);
        assert Replace(s, pat, pat) == [] + [s[0]] + Replace(s[1..], pat, pat);
      } else if pat <= s {
        ReplaceSelf(s[|pat|..], pat);
        assert Replace(s, pat, pat) == pat + Replace(s[|pat|..], pat, pat);
        assert pat + s[|pat|..] == s;
      } else {
        ReplaceSelf(s[1..], pat);
        assert Replace(s, pat, pat) == [s[0]] + Replace(s[1..], pat, pat);
      }
    }
  }

  /** Replacing inside a string that is exactly `pat` gives exactly `repl`. */
  lemma ReplaceWhole(pat: string, repl: string)
    ensures Replace(pat, pat, repl) == repl
  {
    assert pat[|pat|..] == [];
  }

  /** With an empty `pat`, `repl` is inserted once before each character and once at the end. */
  lemma {:induction false} ReplaceEmptyLength(s: string, repl: string)
    ensures |Replace(s, [], repl)| == |s| + (|s| + 1) * |repl|
    decreases |s|
  {
    if s != [] {
      ReplaceEmptyLength(s[1..], repl);
    }
  }
}
