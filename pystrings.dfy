/**
 * The few operations on Python `str` values that the scraper relies on,
 * with their Python meaning: `s.startswith(p)`, `sub in s`, `s.split(c)`,
 * `sep.join(parts)` and the decimal rendering of an `int` in an f-string.
 */
module PyStrings {

  /** `s.startswith(prefix)`: `prefix` agrees with the start of `s`, character by character. */
  predicate StartsWith(s: string, prefix: string): (b: bool)
    ensures b <==> |prefix| <= |s| && forall i :: 0 <= i < |prefix| ==> s[i] == prefix[i]
  {
    |prefix| <= |s| && s[..|prefix|] == prefix
  }

  /** `sub in s`: `sub` is a prefix of some suffix of `s`. */
  predicate Contains(s: string, sub: string): (b: bool)
    ensures StartsWith(s, sub) ==> b
    ensures b ==> |sub| <= |s|
    decreases |s|
  {
    StartsWith(s, sub) || (|s| > 0 && Contains(s[1..], sub))
  }

  /** `sub` occurs in `s` starting at index `i`. */
  ghost predicate OccursAt(s: string, sub: string, i: int) {
    0 <= i && i + |sub| <= |s| && s[i..i + |sub|] == sub
  }

  /** `Contains` agrees with the index-based reading of substring search. */
  lemma {:induction false} ContainsIffOccurs(s: string, sub: string)
    ensures Contains(s, sub) <==> exists i :: OccursAt(s, sub, i)
    decreases |s|
  {
    assert StartsWith(s, sub) <==> OccursAt(s, sub, 0);
    if |s| > 0 {
      ContainsIffOccurs(s[1..], sub);
      forall i | OccursAt(s[1..], sub, i) ensures OccursAt(s, sub, i + 1) {
        assert s[1..][i..i + |sub|] == s[i + 1..i + 1 + |sub|];
      }
      forall i | 1 <= i && OccursAt(s, sub, i) ensures OccursAt(s[1..], sub, i - 1) {
        assert s[1..][i - 1..i - 1 + |sub|] == s[i..i + |sub|];
      }
    }
  }

  /** Nothing longer than `s` occurs in it. */
  lemma ContainsOnlyShorter(s: string, sub: string)
    requires |s| < |sub|
    ensures !Contains(s, sub)
  {
    ContainsIffOccurs(s, sub);
  }

  /** The empty string occurs in every string, and only it occurs in the empty string. */
  lemma ContainsEmpty(s: string, sub: string)
    ensures Contains(s, "")
    ensures Contains("", sub) <==> sub == ""
  {
  }

  /** A string that starts with `p + q` starts with `p`. */
  lemma StartsWithLonger(s: string, p: string, q: string)
    requires StartsWith(s, p + q)
    ensures StartsWith(s, p)
  {
    assert s[..|p|] == s[..|p + q|][..|p|];
  }

  /**
   * `s.split(sep)`: the pieces of `s` between the occurrences of `sep`.
   * There is always one piece more than there are separators.
   */
  function Split(s: string, sep: char): (parts: seq<string>)
    ensures |parts| >= 1
    ensures |parts| == 1 <==> sep !in s
    ensures forall i :: 0 <= i < |parts| ==> sep !in parts[i]
    decreases |s|
  {
    if s == [] then [""]
    else
      var init, c := Split(s[..|s| - 1], sep), s[|s| - 1];
      assert s == s[..|s| - 1] + [c];
      if c == sep then init + [""]
      else init[..|init| - 1] + [init[|init| - 1] + [c]]
  }

  /** `sep.join(parts)`: the first part begins the result and the last part ends it. */
  function Join(parts: seq<string>, sep: string): (r: string)
    ensures |parts| >= 1 ==> StartsWith(r, parts[0])
    ensures |parts| >= 1 ==> var last := parts[|parts| - 1];
      |last| <= |r| && r[|r| - |last|..] == last
    decreases |parts|
  {
    if |parts| == 0 then ""
    else if |parts| == 1 then parts[0]
    else Join(parts[..|parts| - 1], sep) + sep + parts[|parts| - 1]
  }

  /** One more character: a separator starts a new piece, anything else extends the last one. */
  lemma SplitSnoc(front: string, c: char, sep: char)
    ensures var init := Split(front, sep);
      Split(front + [c], sep) ==
        if c == sep then init + [""] else init[..|init| - 1] + [init[|init| - 1] + [c]]
  {
    assert (front + [c])[..|front|] == front;
  }

  /** Joining one more piece appends the separator and the piece. */
  lemma JoinSnoc(parts: seq<string>, sep: string, x: string)
    requires |parts| >= 1
    ensures Join(parts + [x], sep) == Join(parts, sep) + sep + x
  {
    assert (parts + [x])[..|parts|] == parts;
  }

  /** Extending the last piece extends the joined string. */
  lemma JoinExtendLast(parts: seq<string>, sep: string, x: string)
    requires |parts| >= 1
    ensures Join(parts[..|parts| - 1] + [parts[|parts| - 1] + x], sep) == Join(parts, sep) + x
  {
    var k := |parts|;
    var init, last := parts[..k - 1], parts[k - 1];
    if k == 1 {
      assert init + [last + x] == [last + x];
    } else {
      assert init + [last] == parts;
      JoinSnoc(init, sep, last);
      JoinSnoc(init, sep, last + x);
      var j := Join(init, sep);
      assert j + sep + (last + x) == (j + sep + last) + x;
    }
  }

  /** Joining the pieces of a split with the same separator gives back the string. */
  lemma {:induction false} JoinSplit(s: string, sep: char)
    ensures Join(Split(s, sep), [sep]) == s
    decreases |s|
  {
    if s != [] {
      var front, c := s[..|s| - 1], s[|s| - 1];
      assert s == front + [c];
      var parts := Split(front, sep);
      JoinSplit(front, sep);
      SplitSnoc(front, c, sep);
      if c == sep {
        assert Split(s, sep) == parts + [""];
        JoinSnoc(parts, [sep], "");
        assert Join(parts + [""], [sep]) == front + [sep] + "";
      } else {
        assert Split(s, sep) == parts[..|parts| - 1] + [parts[|parts| - 1] + [c]];
        JoinExtendLast(parts, [sep], [c]);
      }
    }
  }

  /** A string without the separator is its own single piece. */
  lemma SplitWithoutSeparator(s: string, sep: char)
    requires sep !in s
    ensures Split(s, sep) == [s]
  {
    JoinSplit(s, sep);
  }

  /** Appending a separator and a separator-free piece appends that piece. */
  lemma {:induction false} SplitAppendPiece(x: string, sep: char, y: string)
    requires sep !in y
    ensures Split(x + [sep] + y, sep) == Split(x, sep) + [y]
    decreases |y|
  {
    if y == [] {
      assert x + [sep] + y == x + [sep];
      SplitSnoc(x, sep, sep);
    } else {
      var y', c := y[..|y| - 1], y[|y| - 1];
      assert y == y' + [c];
      assert c != sep;
      assert forall i :: 0 <= i < |y'| ==> y'[i] == y[i];
      var s' := x + [sep] + y';
      assert x + [sep] + y == s' + [c];
      SplitAppendPiece(x, sep, y');
      var init := Split(x, sep) + [y'];
      assert Split(s', sep) == init;
      SplitSnoc(s', c, sep);
      assert Split(s' + [c], sep) == init[..|init| - 1] + [init[|init| - 1] + [c]];
      assert init[..|init| - 1] == Split(x, sep);
      assert init[|init| - 1] + [c] == y;
    }
  }

  /** Splitting a join of separator-free pieces gives back the pieces. */
  lemma {:induction false} SplitJoin(parts: seq<string>, sep: char)
    requires |parts| >= 1
    requires forall i :: 0 <= i < |parts| ==> sep !in parts[i]
    ensures Split(Join(parts, [sep]), sep) == parts
    decreases |parts|
  {
    if |parts| == 1 {
      SplitWithoutSeparator(parts[0], sep);
    } else {
      var init, last := parts[..|parts| - 1], parts[|parts| - 1];
      assert init + [last] == parts;
      assert forall i :: 0 <= i < |init| ==> init[i] == parts[i];
      SplitJoin(init, sep);
      JoinSnoc(init, [sep], last);
      SplitAppendPiece(Join(init, [sep]), sep, last);
    }
  }

  /** A string that does not end in the separator has a non-empty last piece. */
  lemma SplitLastNonEmpty(s: string, sep: char)
    requires s != [] && s[|s| - 1] != sep
    ensures var parts := Split(s, sep); parts[|parts| - 1] != ""
  {
    var front, c := s[..|s| - 1], s[|s| - 1];
    assert s == front + [c];
    SplitSnoc(front, c, sep);
  }

  /** `last` is a suffix of `s` that is preceded by `sep` or is all of `s`. */
  ghost predicate EndsWithPiece(s: string, last: string, sep: char) {
    |last| <= |s| && s[|s| - |last|..] == last && (|last| == |s| || s[|s| - |last| - 1] == sep)
  }

  /** A character other than the separator extends a trailing piece. */
  lemma EndsWithPieceExtend(front: string, c: char, last: string, sep: char)
    requires EndsWithPiece(front, last, sep)
    ensures EndsWithPiece(front + [c], last + [c], sep)
  {
    var s := front + [c];
    assert s[|s| - |last + [c]|..] == front[|front| - |last|..] + [c];
    if |last| < |front| {
      assert s[|s| - |last + [c]| - 1] == front[|front| - |last| - 1];
    }
  }

  /**
   * The last piece of a split is the suffix of `s` after its last separator:
   * it is preceded by a separator or it is all of `s`.
   */
  lemma {:induction false} SplitLastPiece(s: string, sep: char)
    ensures var parts := Split(s, sep); EndsWithPiece(s, parts[|parts| - 1], sep)
    decreases |s|
  {
    if s != [] {
      var front, c := s[..|s| - 1], s[|s| - 1];
      assert s == front + [c];
      SplitLastPiece(front, sep);
      SplitSnoc(front, c, sep);
      if c != sep {
        var pf := Split(front, sep);
        EndsWithPieceExtend(front, c, pf[|pf| - 1], sep);
      }
    }
  }

  function Digit(d: nat): (c: char)
    requires d < 10
    ensures '0' <= c <= '9'
  {
    "0123456789"[d]
  }

  /** `str(n)` for a non-negative `int`: its decimal digits, most significant first. */
  function Decimal(n: nat): (s: string)
    ensures 1 <= |s|
    ensures forall i :: 0 <= i < |s| ==> '0' <= s[i] <= '9'
    decreases n
  {
    if n < 10 then [Digit(n)] else Decimal(n / 10) + [Digit(n % 10)]
  }

  /** The number a string of decimal digits denotes, most significant digit first. */
  function DigitsValue(s: string): int
    decreases |s|
  {
    if s == [] then 0 else 10 * DigitsValue(s[..|s| - 1]) + (s[|s| - 1] as int - '0' as int)
  }

  /** `str(n)` denotes `n` and has no leading zero. */
  lemma {:induction false} DecimalValue(n: nat)
    ensures DigitsValue(Decimal(n)) == n
    ensures n >= 10 ==> Decimal(n)[0] != '0'
    decreases n
  {
    if n >= 10 {
      DecimalValue(n / 10);
      assert Decimal(n)[..|Decimal(n)| - 1] == Decimal(n / 10);
    }
  }
}
