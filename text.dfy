/** The Python `str` operations the build-script interpreter relies on:
    `in`, `startswith`, `replace`, `split`, `join`, `strip`, `lower`,
    `upper` and `int()`, each written out with Python's edge cases
    (an empty pattern for `replace`, empty pieces for `split`). */
module Text {

  import opened Outcomes

  /** Python's `str.isspace()`: the characters `strip()` removes. */
  predicate IsSpace(c: char)
  {
    var n := c as int;
    (9 <= n <= 13) || (28 <= n <= 32) || n == 0x85 || n == 0xA0 || n == 0x1680
    || (0x2000 <= n <= 0x200A) || n == 0x2028 || n == 0x2029 || n == 0x202F
    || n == 0x205F || n == 0x3000
  }

  /** The prefix of length `k + 1` extends the prefix of length `k`. */
  lemma TakeOneMore<T>(s: seq<T>, k: nat)
    requires k < |s|
    ensures s[..k + 1] == s[..k] + [s[k]]
  {
  }

  /** `s.startswith(p)` */
  predicate StartsWith(s: string, p: string)
  {
    |p| <= |s| && s[..|p|] == p
  }

  /** `p in s`: some position of `s` starts with `p`; the empty string is in every string. */
  predicate Contains(s: string, p: string)
    decreases |s|
  {
    StartsWith(s, p) || (|s| > 0 && Contains(s[1..], p))
  }

  /** `s.lstrip()` */
  function StripLeft(s: string): (r: string)
    ensures |r| <= |s| && r == s[|s| - |r|..]
    ensures |r| > 0 ==> !IsSpace(r[0])
    ensures forall k :: 0 <= k < |s| - |r| ==> IsSpace(s[k])
  {
    if |s| > 0 && IsSpace(s[0]) then StripLeft(s[1..]) else s
  }

  /** `s.rstrip()` */
  function StripRight(s: string): (r: string)
    ensures |r| <= |s| && r == s[..|r|]
    ensures |r| > 0 ==> !IsSpace(r[|r| - 1])
    ensures forall k :: |r| <= k < |s| ==> IsSpace(s[k])
  {
    if |s| > 0 && IsSpace(s[|s| - 1]) then StripRight(s[..|s| - 1]) else s
  }

  /** `s.strip()` */
  function Strip(s: string): string
  {
    StripRight(StripLeft(s))
  }

  /** A stripped string has no white space at either end, and stripping it again changes nothing. */
  lemma StripIdempotent(s: string)
    ensures var r := Strip(s); (|r| > 0 ==> !IsSpace(r[0]) && !IsSpace(r[|r| - 1])) && Strip(r) == r
  {
    var l := StripLeft(s);
    var r := StripRight(l);
    if |r| > 0 {
      assert r[0] == l[0];
    }
  }

  /** A string without white space at either end is its own strip. */
  lemma StripTrimmed(s: string)
    requires |s| > 0 ==> !IsSpace(s[0]) && !IsSpace(s[|s| - 1])
    ensures Strip(s) == s
  {
  }

  /** Everything `strip` keeps was in the string. */
  lemma StripKeepsOut(s: string, c: char)
    requires c !in s
    ensures c !in Strip(s)
  {
    var l := StripLeft(s);
    assert forall k :: 0 <= k < |l| ==> l[k] == s[|s| - |l| + k];
  }

  /** `s.lower()` on ASCII letters. */
  function Lower(s: string): (r: string)
    ensures |r| == |s|
    ensures forall k :: 0 <= k < |s| ==> r[k] == if 'A' <= s[k] <= 'Z' then (s[k] as int + 32) as char else s[k]
  {
    seq(|s|, k requires 0 <= k < |s| => if 'A' <= s[k] <= 'Z' then (s[k] as int + 32) as char else s[k])
  }

  /** `s.upper()` on ASCII letters. */
  function Upper(s: string): (r: string)
    ensures |r| == |s|
    ensures forall k :: 0 <= k < |s| ==> r[k] == if 'a' <= s[k] <= 'z' then (s[k] as int - 32) as char else s[k]
  {
    seq(|s|, k requires 0 <= k < |s| => if 'a' <= s[k] <= 'z' then (s[k] as int - 32) as char else s[k])
  }

  /** Lower-casing forgets the case a string had: lower-casing after
      upper-casing is lower-casing, and lowering twice is lowering once. */
  lemma LowerIgnoresCase(s: string)
    ensures Lower(Upper(s)) == Lower(s)
    ensures Lower(Lower(s)) == Lower(s)
  {
    var u, l := Upper(s), Lower(s);
    forall k | 0 <= k < |s|
      ensures Lower(u)[k] == l[k] && Lower(l)[k] == l[k]
    {
    }
  }

  /** Upper-casing forgets the case a string had. */
  lemma UpperIgnoresCase(s: string)
    ensures Upper(Lower(s)) == Upper(s)
    ensures Upper(Upper(s)) == Upper(s)
  {
    var u, l := Upper(s), Lower(s);
    forall k | 0 <= k < |s|
      ensures Upper(l)[k] == u[k] && Upper(u)[k] == u[k]
    {
    }
  }

  /** `s.replace(pat, rep)`: every leftmost, non-overlapping occurrence of
      `pat` replaced; an empty `pat` inserts `rep` around every character. */
  function ReplaceAll(s: string, pat: string, rep: string): string
    decreases |s|
  {
    if pat == [] then
      (if s == [] then rep else rep + [s[0]] + ReplaceAll(s[1..], pat, rep))
    else if StartsWith(s, pat) then rep + ReplaceAll(s[|pat|..], pat, rep)
    else if s == [] then []
    else [s[0]] + ReplaceAll(s[1..], pat, rep)
  }

  /** `s.split(sep)` for a non-empty separator: always at least one piece. */
  function Split(s: string, sep: string): (r: seq<string>)
    requires |sep| > 0
    ensures |r| >= 1
    decreases |s|
  {
    if StartsWith(s, sep) then [""] + Split(s[|sep|..], sep)
    else if s == [] then [""]
    else
      var rest := Split(s[1..], sep);
      [[s[0]] + rest[0]] + rest[1..]
  }

  /** `sep.join(parts)` */
  function Join(parts: seq<string>, sep: string): string
    decreases |parts|
  {
    if |parts| == 0 then ""
    else if |parts| == 1 then parts[0]
    else parts[0] + sep + Join(parts[1..], sep)
  }

  /** `s.split(sep, n)`: at most `n` splits, taken from the left; the
      last piece keeps the unsplit remainder. */
  function SplitMax(s: string, sep: string, n: nat): (r: seq<string>)
    requires |sep| > 0
    ensures 1 <= |r| <= n + 1
  {
    var pieces := Split(s, sep);
    if |pieces| <= n + 1 then pieces else pieces[..n] + [Join(pieces[n..], sep)]
  }

  lemma JoinCons(a: string, rest: seq<string>, sep: string)
    requires |rest| >= 1
    ensures Join([a] + rest, sep) == a + sep + Join(rest, sep)
  {
    assert ([a] + rest)[1..] == rest;
  }

  /** Joining a prefix of pieces with the join of the rest is joining them all. */
  lemma {:induction false} JoinRegroup(a: seq<string>, b: seq<string>, sep: string)
    requires |b| >= 1
    ensures Join(a + [Join(b, sep)], sep) == Join(a + b, sep)
    decreases |a|
  {
    if |a| > 0 {
      var j := Join(b, sep);
      JoinRegroup(a[1..], b, sep);
      assert a + [j] == [a[0]] + (a[1..] + [j]);
      assert a + b == [a[0]] + (a[1..] + b);
      JoinCons(a[0], a[1..] + [j], sep);
      JoinCons(a[0], a[1..] + b, sep);
    } else {
      assert a + [Join(b, sep)] == [Join(b, sep)] && a + b == b;
    }
  }

  /** Re-joining the pieces of a bounded split gives back the string. */
  lemma JoinSplitMax(s: string, sep: string, n: nat)
    requires |sep| > 0
    ensures Join(SplitMax(s, sep, n), sep) == s
  {
    var pieces := Split(s, sep);
    JoinSplit(s, sep);
    if |pieces| > n + 1 {
      JoinTail(pieces, n, sep);
    }
  }

  lemma JoinTail(pieces: seq<string>, n: nat, sep: string)
    requires n < |pieces|
    ensures Join(pieces[..n] + [Join(pieces[n..], sep)], sep) == Join(pieces, sep)
  {
    JoinRegroup(pieces[..n], pieces[n..], sep);
    assert pieces[..n] + pieces[n..] == pieces;
  }

  /** Gluing a character onto the first piece glues it onto the join. */
  lemma JoinHeadChar(c: char, p: seq<string>, sep: string)
    requires |p| >= 1
    ensures Join([[c] + p[0]] + p[1..], sep) == [c] + Join(p, sep)
  {
    var q := [[c] + p[0]] + p[1..];
    if |p| > 1 {
      assert q[1..] == p[1..];
    }
  }

  /** Python's `replace` is splitting on the pattern and joining with the replacement. */
  lemma {:induction false} ReplaceViaSplit(s: string, pat: string, rep: string)
    requires |pat| > 0
    ensures ReplaceAll(s, pat, rep) == Join(Split(s, pat), rep)
    decreases |s|
  {
    if StartsWith(s, pat) {
      ReplaceViaSplit(s[|pat|..], pat, rep);
      JoinCons("", Split(s[|pat|..], pat), rep);
    } else if s != [] {
      ReplaceViaSplit(s[1..], pat, rep);
      JoinHeadChar(s[0], Split(s[1..], pat), rep);
    }
  }

  /** Replacing a pattern by itself changes nothing. */
  lemma {:induction false} ReplaceSelf(s: string, pat: string)
    ensures ReplaceAll(s, pat, pat) == s
    decreases |s|
  {
    if pat == [] {
      if s != [] { ReplaceSelf(s[1..], pat); }
    } else if StartsWith(s, pat) {
      ReplaceSelf(s[|pat|..], pat);
      assert s == s[..|pat|] + s[|pat|..];
    } else if s != [] {
      ReplaceSelf(s[1..], pat);
      assert s == [s[0]] + s[1..];
    }
  }

  /** `sep.join(s.split(sep)) == s` */
  lemma JoinSplit(s: string, sep: string)
    requires |sep| > 0
    ensures Join(Split(s, sep), sep) == s
  {
    ReplaceViaSplit(s, sep, sep);
    ReplaceSelf(s, sep);
  }

  /** Replacing a pattern that does not occur changes nothing. */
  lemma {:induction false} ReplaceAbsent(s: string, pat: string, rep: string)
    requires |pat| > 0 && !Contains(s, pat)
    ensures ReplaceAll(s, pat, rep) == s
    decreases |s|
  {
    if s != [] {
      ReplaceAbsent(s[1..], pat, rep);
      assert s == [s[0]] + s[1..];
    }
  }

  /** A string without the character `c` does not contain `[c]`. */
  lemma {:induction false} NoCharNoContains(s: string, c: char)
    requires c !in s
    ensures !Contains(s, [c])
    decreases |s|
  {
    if |s| > 0 {
      assert s[0] in s;
      assert forall x :: x in s[1..] ==> x in s;
      NoCharNoContains(s[1..], c);
    }
  }

  /** Replacing a one-character pattern works piece by piece: the pattern
      cannot straddle the join. */
  lemma {:induction false} ReplaceCharConcat(a: string, b: string, c: char, rep: string)
    ensures ReplaceAll(a + b, [c], rep) == ReplaceAll(a, [c], rep) + ReplaceAll(b, [c], rep)
    decreases |a|
  {
    if a == [] {
      assert a + b == b;
    } else {
      var head := if a[0] == c then rep else [a[0]];
      calc {
        ReplaceAll(a + b, [c], rep);
        { assert a + b == [a[0]] + (a[1..] + b); ReplaceCharCons(a[0], a[1..] + b, c, rep); }
        head + ReplaceAll(a[1..] + b, [c], rep);
        { ReplaceCharConcat(a[1..], b, c, rep); }
        head + (ReplaceAll(a[1..], [c], rep) + ReplaceAll(b, [c], rep));
        (head + ReplaceAll(a[1..], [c], rep)) + ReplaceAll(b, [c], rep);
        { assert [a[0]] + a[1..] == a; ReplaceCharCons(a[0], a[1..], c, rep); }
        ReplaceAll(a, [c], rep) + ReplaceAll(b, [c], rep);
      }
    }
  }

  lemma ReplaceCharCons(x: char, s: string, c: char, rep: string)
    ensures ReplaceAll([x] + s, [c], rep) == (if x == c then rep else [x]) + ReplaceAll(s, [c], rep)
  {
    assert ([x] + s)[1..] == s;
    assert ([x] + s)[..1] == [x];
  }

  /** A leading space makes no difference to `strip()`. */
  lemma StripSpaceHead(v: string)
    ensures Strip(" " + v) == Strip(v)
  {
    assert IsSpace(' ');
    assert (" " + v)[1..] == v;
  }

  /** A character in neither the text nor the replacement is not in the result. */
  lemma {:induction false} ReplaceKeepsOut(s: string, pat: string, rep: string, c: char)
    requires c !in s && c !in rep
    ensures c !in ReplaceAll(s, pat, rep)
    decreases |s|
  {
    if pat == [] {
      if s != [] { ReplaceKeepsOut(s[1..], pat, rep, c); }
    } else if StartsWith(s, pat) {
      ReplaceKeepsOut(s[|pat|..], pat, rep, c);
    } else if s != [] {
      ReplaceKeepsOut(s[1..], pat, rep, c);
    }
  }

  /** A character in neither the pieces nor the separator is not in the joined string. */
  lemma {:induction false} JoinKeepsOut(parts: seq<string>, sep: string, c: char)
    requires forall k :: 0 <= k < |parts| ==> c !in parts[k]
    requires c !in sep
    ensures c !in Join(parts, sep)
    decreases |parts|
  {
    if |parts| > 1 { JoinKeepsOut(parts[1..], sep, c); }
  }

  /** A character absent from the string is absent from every piece of its split. */
  lemma {:induction false} SplitKeepsOut(s: string, sep: string, c: char)
    requires |sep| > 0 && c !in s
    ensures forall k :: 0 <= k < |Split(s, sep)| ==> c !in Split(s, sep)[k]
    decreases |s|
  {
    if StartsWith(s, sep) {
      SplitKeepsOut(s[|sep|..], sep, c);
    } else if s != [] {
      SplitKeepsOut(s[1..], sep, c);
    }
  }

  /** No piece of a split on a one-character separator contains that character. */
  lemma {:induction false} SplitPiecesFree(s: string, c: char)
    ensures forall k :: 0 <= k < |Split(s, [c])| ==> c !in Split(s, [c])[k]
    decreases |s|
  {
    if StartsWith(s, [c]) {
      SplitPiecesFree(s[1..], c);
    } else if s != [] {
      SplitPiecesFree(s[1..], c);
    }
  }

  /** Splitting `x + [c] + t` on `c`, where `x` holds no `c`, starts with the piece `x`. */
  lemma {:induction false} SplitAfterPiece(x: string, c: char, t: string)
    requires c !in x
    ensures Split(x + [c] + t, [c]) == [x] + Split(t, [c])
    ensures Split(x, [c]) == [x]
    decreases |x|
  {
    if x == [] {
      assert ([] + [c] + t)[1..] == t;
    } else {
      SplitAfterPiece(x[1..], c, t);
      assert (x + [c] + t)[1..] == x[1..] + [c] + t;
      assert [x[0]] + x[1..] == x;
    }
  }

  /** Splitting a join of pieces free of a one-character separator gives the pieces back. */
  lemma {:induction false} SplitJoin(parts: seq<string>, c: char)
    requires |parts| >= 1
    requires forall k :: 0 <= k < |parts| ==> c !in parts[k]
    ensures Split(Join(parts, [c]), [c]) == parts
    decreases |parts|
  {
    if |parts| == 1 {
      SplitAfterPiece(parts[0], c, "");
    } else {
      SplitJoin(parts[1..], c);
      SplitAfterPiece(parts[0], c, Join(parts[1..], [c]));
      assert [parts[0]] + parts[1..] == parts;
    }
  }

  predicate IsDigit(c: char) { '0' <= c <= '9' }

  /** The value of a string of ASCII digits, `_` separators skipped. */
  function DigitsValue(s: string): (n: nat)
    requires forall k :: 0 <= k < |s| ==> IsDigit(s[k]) || s[k] == '_'
    decreases |s|
  {
    if s == [] then 0
    else if s[|s| - 1] == '_' then DigitsValue(s[..|s| - 1])
    else
      assert IsDigit(s[|s| - 1]);
      DigitsValue(s[..|s| - 1]) * 10 + (s[|s| - 1] as int - '0' as int)
  }

  /** Python's integer literal body: digits, with single `_` allowed between two digits. */
  predicate WellFormedDigits(s: string)
  {
    && |s| > 0 && IsDigit(s[0]) && IsDigit(s[|s| - 1])
    && (forall k :: 0 <= k < |s| ==> IsDigit(s[k]) || s[k] == '_')
    && (forall k :: 0 <= k < |s| - 1 && s[k] == '_' ==> s[k + 1] != '_')
  }

  /** `int(s)` on a stripped string: an optional sign and a well-formed digit body; `None` is Python's `ValueError`. */
  function ParseInt(s: string): (r: Option<int>)
    ensures r.Some? ==> |s| > 0
  {
    var neg := |s| > 0 && s[0] == '-';
    var body := if |s| > 0 && (s[0] == '-' || s[0] == '+') then s[1..] else s;
    if !WellFormedDigits(body) then None
    else
      var v: int := DigitsValue(body);
      Some(if neg then -v else v)
  }

  /** The decimal display of a natural number (`str(n)`). */
  function Decimal(n: nat): (r: string)
    ensures |r| > 0 && forall k :: 0 <= k < |r| ==> IsDigit(r[k])
  {
    if n < 10 then [('0' as int + n) as char]
    else Decimal(n / 10) + [('0' as int + n % 10) as char]
  }

  lemma {:induction false} DecimalValue(n: nat)
    ensures DigitsValue(Decimal(n)) == n
  {
    if n >= 10 {
      DecimalValue(n / 10);
      var d := Decimal(n);
      assert d[..|d| - 1] == Decimal(n / 10);
    }
  }

  lemma DigitsWellFormed(s: string)
    requires |s| > 0 && forall k :: 0 <= k < |s| ==> IsDigit(s[k])
    ensures WellFormedDigits(s)
  {
  }

  /** `int(str(n)) == n` and `int("-" + str(n)) == -n`: the exit-code parser reads back what it displays. */
  lemma ParseDecimal(n: nat)
    ensures ParseInt(Decimal(n)) == Some(n)
    ensures ParseInt("-" + Decimal(n)) == Some(-(n as int))
  {
    ParseUnsigned(n);
    ParseNegative(n);
  }

  lemma ParseUnsigned(n: nat)
    ensures ParseInt(Decimal(n)) == Some(n)
  {
    DecimalValue(n);
    DigitsWellFormed(Decimal(n));
  }

  lemma ParseNegative(n: nat)
    ensures ParseInt("-" + Decimal(n)) == Some(-(n as int))
  {
    var d := Decimal(n);
    DecimalValue(n);
    DigitsWellFormed(d);
    assert ("-" + d)[0] == '-';
    assert ("-" + d)[1..] == d;
  }
}
