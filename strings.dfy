/**
 * The few Python `str` operations the job scraper and the emailer rely on:
 * `lower()`, the `in` substring test, `replace`, `split`, `join` and `str`
 * of a non-negative integer. Case folding covers the ASCII letters only.
 */
module Strings {

  // ---------------------------------------------------------------------
  // lower()
  // ---------------------------------------------------------------------

  /** One character of `str.lower()`, restricted to ASCII. */
  function LowerChar(c: char): char {
    if 'A' <= c <= 'Z' then (c as int + 32) as char else c
  }

  /** `s.lower()`. */
  function Lower(s: string): (r: string)
    ensures |r| == |s|
    ensures forall i :: 0 <= i < |s| ==> r[i] == LowerChar(s[i])
    ensures forall i :: 0 <= i < |r| ==> !('A' <= r[i] <= 'Z')
  {
    seq(|s|, i requires 0 <= i < |s| => LowerChar(s[i]))
  }

  /** Lowering distributes over concatenation, and lowering twice is lowering once. */
  lemma LowerAppend(a: string, b: string)
    ensures Lower(a + b) == Lower(a) + Lower(b)
    ensures Lower(Lower(a)) == Lower(a)
  {
  }

  // ---------------------------------------------------------------------
  // needle in hay
  // ---------------------------------------------------------------------

  /** `needle` occurs in `hay` starting at index `i`. */
  predicate OccursAt(hay: string, needle: string, i: int) {
    0 <= i && i + |needle| <= |hay| && hay[i..i + |needle|] == needle
  }

  /** Python's `needle in hay`: is `needle` a prefix of some suffix of `hay`? */
  predicate Contains(hay: string, needle: string)
    decreases |hay|
  {
    needle <= hay || (hay != [] && Contains(hay[1..], needle))
  }

  /** `Contains` holds exactly when `needle` occurs at some index of `hay`. */
  lemma {:induction false} ContainsIff(hay: string, needle: string)
    ensures Contains(hay, needle) <==> exists i :: OccursAt(hay, needle, i)
    decreases |hay|
  {
    if needle <= hay {
      assert OccursAt(hay, needle, 0);
    } else if hay != [] {
      ContainsIff(hay[1..], needle);
      if Contains(hay[1..], needle) {
        var i :| OccursAt(hay[1..], needle, i);
        assert hay[i + 1..i + 1 + |needle|] == hay[1..][i..i + |needle|];
        assert OccursAt(hay, needle, i + 1);
      } else {
        forall i | 0 < i && OccursAt(hay, needle, i)
          ensures OccursAt(hay[1..], needle, i - 1)
        {
          assert hay[1..][i - 1..i - 1 + |needle|] == hay[i..i + |needle|];
        }
      }
    }
  }

  // ---------------------------------------------------------------------
  // replace(pat, rep)
  // ---------------------------------------------------------------------

  /**
   * `s.replace(pat, rep)` for a non-empty `pat`: scanning from the left,
   * each occurrence of `pat` that does not overlap an earlier replaced one
   * is replaced by `rep`.
   */
  function Replace(s: string, pat: string, rep: string): string
    requires pat != []
    decreases |s|
  {
    if s == [] then []
    else if pat <= s then rep + Replace(s[|pat|..], pat, rep)
    else [s[0]] + Replace(s[1..], pat, rep)
  }

  /** A string in which `pat` does not occur is left unchanged. */
  lemma {:induction false} ReplaceAbsent(s: string, pat: string, rep: string)
    requires pat != []
    requires !Contains(s, pat)
    ensures Replace(s, pat, rep) == s
    decreases |s|
  {
    if s != [] {
      ReplaceAbsent(s[1..], pat, rep);
    }
  }

  /**
   * A prefix that does not contain the first character of `pat` cannot
   * start an occurrence, so it is copied through unchanged.
   */
  lemma {:induction false} ReplaceSkipsPrefix(x: string, t: string, pat: string, rep: string)
    requires pat != [] && pat[0] !in x
    ensures Replace(x + t, pat, rep) == x + Replace(t, pat, rep)
    decreases |x|
  {
    if x != [] {
      assert x[0] in x;
      assert (x + t)[0] == x[0] && (x + t)[1..] == x[1..] + t;
      assert !(pat <= x + t);
      ReplaceSkipsPrefix(x[1..], t, pat, rep);
      calc {
        Replace(x + t, pat, rep);
        [x[0]] + Replace(x[1..] + t, pat, rep);
        [x[0]] + (x[1..] + Replace(t, pat, rep));
        { assert [x[0]] + x[1..] == x; }
        x + Replace(t, pat, rep);
      }
    } else {
      assert x + t == t;
    }
  }

  /** Replacing produces no character that was in neither `s` nor `rep`. */
  lemma {:induction false} ReplaceNoNewChar(s: string, pat: string, rep: string, c: char)
    requires pat != [] && c !in s && c !in rep
    ensures c !in Replace(s, pat, rep)
    decreases |s|
  {
    if s != [] {
      if pat <= s {
        assert s[|pat|..] == s[|pat|..];
        ReplaceNoNewChar(s[|pat|..], pat, rep, c);
      } else {
        ReplaceNoNewChar(s[1..], pat, rep, c);
      }
    }
  }

  /** Replacing one character by one character works position by position. */
  lemma {:induction false} ReplaceCharAt(s: string, a: char, b: char)
    ensures |Replace(s, [a], [b])| == |s|
    ensures forall i :: 0 <= i < |s| ==>
      Replace(s, [a], [b])[i] == if s[i] == a then b else s[i]
    decreases |s|
  {
    if s != [] {
      ReplaceCharAt(s[1..], a, b);
      if [a] <= s {
        assert s[1..] == s[|[a]|..];
      }
    }
  }

  // ---------------------------------------------------------------------
  // sep.join(xs) and s.split(sep)
  // ---------------------------------------------------------------------

  /** `sep.join(xs)`. */
  function Join(xs: seq<string>, sep: string): string
    decreases |xs|
  {
    if xs == [] then []
    else if |xs| == 1 then xs[0]
    else xs[0] + sep + Join(xs[1..], sep)
  }

  /** `s.split(sep)` for a one-character separator: always at least one piece, none holding `sep`. */
  function Split(s: string, sep: char): (r: seq<string>)
    ensures |r| >= 1
    ensures forall i :: 0 <= i < |r| ==> sep !in r[i]
    decreases |s|
  {
    if s == [] then [[]]
    else
      var rest := Split(s[1..], sep);
      if s[0] == sep then [[]] + rest
      else [[s[0]] + rest[0]] + rest[1..]
  }

  /** Joining the pieces of a split gives back the original string. */
  lemma {:induction false} JoinSplit(s: string, sep: char)
    ensures Join(Split(s, sep), [sep]) == s
    decreases |s|
  {
    if s != [] {
      var rest := Split(s[1..], sep);
      JoinSplit(s[1..], sep);
      if s[0] == sep {
        assert Join([[]] + rest, [sep]) == [] + [sep] + Join(rest, [sep]);
      } else if |rest| > 1 {
        var r := [[s[0]] + rest[0]] + rest[1..];
        assert r[1..] == rest[1..];
        assert Join(r, [sep]) == [s[0]] + rest[0] + [sep] + Join(rest[1..], [sep]);
      }
    }
  }

  /** A string without the separator splits into itself alone. */
  lemma {:induction false} SplitNoSep(s: string, sep: char)
    requires sep !in s
    ensures Split(s, sep) == [s]
    decreases |s|
  {
    if s != [] {
      assert s[0] in s;
      SplitNoSep(s[1..], sep);
      assert s == [s[0]] + s[1..];
    }
  }

  /** A separator-free prefix is glued onto the first piece of the rest. */
  lemma {:induction false} SplitPrefix(x: string, t: string, sep: char)
    requires sep !in x
    ensures Split(x + t, sep) == [x + Split(t, sep)[0]] + Split(t, sep)[1..]
    decreases |x|
  {
    if x != [] {
      assert x[0] in x;
      assert (x + t)[0] == x[0] && (x + t)[1..] == x[1..] + t;
      SplitPrefix(x[1..], t, sep);
      var rest := Split(t, sep);
      calc {
        Split(x + t, sep);
        [[x[0]] + Split(x[1..] + t, sep)[0]] + Split(x[1..] + t, sep)[1..];
        [[x[0]] + (x[1..] + rest[0])] + rest[1..];
        { assert [x[0]] + (x[1..] + rest[0]) == x + rest[0]; }
        [x + rest[0]] + rest[1..];
      }
    } else {
      var rest := Split(t, sep);
      assert x + t == t && x + rest[0] == rest[0];
      assert rest == [rest[0]] + rest[1..];
    }
  }

  /** Splitting the join of separator-free strings gives them back. */
  lemma {:induction false} SplitJoin(xs: seq<string>, sep: char)
    requires |xs| >= 1
    requires forall i :: 0 <= i < |xs| ==> sep !in xs[i]
    ensures Split(Join(xs, [sep]), sep) == xs
    decreases |xs|
  {
    if |xs| == 1 {
      SplitNoSep(xs[0], sep);
    } else {
      var j := Join(xs[1..], [sep]);
      SplitJoin(xs[1..], sep);
      assert Join(xs, [sep]) == xs[0] + ([sep] + j);
      SplitPrefix(xs[0], [sep] + j, sep);
      assert ([sep] + j)[1..] == j;
      var rest := Split([sep] + j, sep);
      assert rest == [[]] + Split(j, sep);
      calc {
        Split(Join(xs, [sep]), sep);
        [xs[0] + rest[0]] + rest[1..];
        { assert xs[0] + [] == xs[0]; }
        [xs[0]] + xs[1..];
        xs;
      }
    }
  }

  /** Joining one more piece on the right adds a separator and that piece. */
  lemma {:induction false} JoinSnoc(xs: seq<string>, x: string, sep: string)
    requires xs != []
    ensures Join(xs + [x], sep) == Join(xs, sep) + sep + x
    decreases |xs|
  {
    if |xs| > 1 {
      assert (xs + [x])[1..] == xs[1..] + [x];
      JoinSnoc(xs[1..], x, sep);
    }
  }

  /** The separator-joined pieces of `a + b`, when both are non-empty. */
  lemma {:induction false} JoinAppend(a: seq<string>, b: seq<string>, sep: string)
    requires a != [] && b != []
    ensures Join(a + b, sep) == Join(a, sep) + sep + Join(b, sep)
    decreases |a|
  {
    if |a| == 1 {
      assert (a + b)[1..] == b;
    } else {
      assert (a + b)[1..] == a[1..] + b;
      JoinAppend(a[1..], b, sep);
    }
  }

  /** `"".join(xs)`: the strings one after the other. */
  function Concat(xs: seq<string>): string
    decreases |xs|
  {
    if xs == [] then [] else Concat(xs[..|xs| - 1]) + xs[|xs| - 1]
  }

  /** Concatenating two lists of strings concatenates their concatenations. */
  lemma {:induction false} ConcatAppend(a: seq<string>, b: seq<string>)
    ensures Concat(a + b) == Concat(a) + Concat(b)
    decreases |b|
  {
    if b == [] {
      assert a + b == a;
    } else {
      var init := b[..|b| - 1];
      ConcatAppend(a, init);
      assert (a + b)[..|a + b| - 1] == a + init;
    }
  }

  /** The pieces `xs[i..j]` appear together in `Concat(xs)`, right after the pieces before `i`. */
  lemma ConcatSliceAt(xs: seq<string>, i: nat, j: nat)
    requires i <= j <= |xs|
    ensures OccursAt(Concat(xs), Concat(xs[i..j]), |Concat(xs[..i])|)
  {
    assert xs == xs[..i] + xs[i..j] + xs[j..];
    ConcatAppend(xs[..i] + xs[i..j], xs[j..]);
    ConcatAppend(xs[..i], xs[i..j]);
    var a, m, b := Concat(xs[..i]), Concat(xs[i..j]), Concat(xs[j..]);
    assert (a + m + b)[|a|..|a| + |m|] == m;
  }

  /** Piece `k` appears in `Concat(xs)` right after the pieces before it. */
  lemma ConcatPieceAt(xs: seq<string>, k: nat)
    requires k < |xs|
    ensures OccursAt(Concat(xs), xs[k], |Concat(xs[..k])|)
  {
    ConcatSliceAt(xs, k, k + 1);
    assert xs[k..k + 1] == [xs[k]];
    assert Concat([xs[k]]) == Concat([]) + xs[k];
  }

  /** Three pieces concatenated. */
  lemma Concat3(a: string, b: string, c: string)
    ensures Concat([a, b, c]) == a + b + c
  {
    assert [a, b, c][..2] == [a, b];
    assert [a, b][..1] == [a];
    assert [a][..0] == [];
    calc {
      Concat([a, b, c]);
      Concat([a, b]) + c;
      (Concat([a]) + b) + c;
      ((Concat([]) + a) + b) + c;
      { assert Concat([]) == []; }
      a + b + c;
    }
  }

  /** An occurrence stays an occurrence when text is added around the string. */
  lemma OccursAtShift(a: string, c: string, b: string, x: string, i: int)
    requires OccursAt(c, x, i)
    ensures OccursAt(a + c + b, x, |a| + i)
  {
    assert (a + c + b)[|a| + i..|a| + i + |x|] == c[i..i + |x|];
  }

  /** `s.split(sep)[-1]`: the text after the last separator, or all of `s`. */
  function LastPiece(s: string, sep: char): string {
    var pieces := Split(s, sep);
    pieces[|pieces| - 1]
  }

  /**
   * The last piece is the longest suffix of `s` without the separator: it is
   * a suffix, holds no separator, and is either all of `s` or directly
   * preceded by a separator.
   */
  lemma {:induction false} LastPieceIsSuffix(s: string, sep: char)
    ensures var r := LastPiece(s, sep);
      |r| <= |s| && s[|s| - |r|..] == r && sep !in r &&
      (|r| < |s| ==> s[|s| - |r| - 1] == sep)
  {
    var pieces := Split(s, sep);
    JoinSplit(s, sep);
    if |pieces| > 1 {
      var init := pieces[..|pieces| - 1];
      assert pieces == init + [pieces[|pieces| - 1]];
      JoinSnoc(init, pieces[|pieces| - 1], [sep]);
    }
  }

  /** A string that ends with the separator has an empty last piece. */
  lemma LastPieceAfterTrailingSep(s: string, sep: char)
    requires s != [] && s[|s| - 1] == sep
    ensures LastPiece(s, sep) == []
  {
    LastPieceIsSuffix(s, sep);
  }

  /** The last piece of `prefix + [sep] + seg` is `seg` when `seg` holds no separator. */
  lemma LastPieceAfterSep(prefix: string, seg: string, sep: char)
    requires sep !in seg
    ensures LastPiece(prefix + [sep] + seg, sep) == seg
  {
    var s := prefix + [sep] + seg;
    LastPieceIsSuffix(s, sep);
    assert s[|s| - |seg|..] == seg;
    assert s[|s| - |seg| - 1] == sep;
  }

  // ---------------------------------------------------------------------
  // str(n) for n >= 0
  // ---------------------------------------------------------------------

  function DigitChar(d: nat): char
    requires d < 10
  {
    ('0' as int + d) as char
  }

  predicate IsDigit(c: char) {
    '0' <= c <= '9'
  }

  /** `str(n)`: the decimal numeral of `n`, without leading zeros. */
  function Decimal(n: nat): (r: string)
    ensures |r| >= 1
    ensures forall i :: 0 <= i < |r| ==> IsDigit(r[i])
    ensures |r| > 1 ==> r[0] != '0'
    decreases n
  {
    if n < 10 then [DigitChar(n)] else Decimal(n / 10) + [DigitChar(n % 10)]
  }

  /** The value of a string of decimal digits. */
  function DecimalValue(s: string): nat
    requires forall i :: 0 <= i < |s| ==> IsDigit(s[i])
    decreases |s|
  {
    if s == [] then 0
    else
      assert IsDigit(s[|s| - 1]);
      10 * DecimalValue(s[..|s| - 1]) + (s[|s| - 1] as int - '0' as int)
  }

  /** Reading the numeral back gives the number. */
  lemma {:induction false} DecimalRoundTrip(n: nat)
    ensures DecimalValue(Decimal(n)) == n
    decreases n
  {
    if n >= 10 {
      DecimalRoundTrip(n / 10);
      var r := Decimal(n);
      assert r[..|r| - 1] == Decimal(n / 10);
    }
  }
}
