/** How the interpreter reads a rewritten line: which directive it is (the
    first matching prefix), and the argument text its regular expression or
    `split` extracts. */
module Directives {

  import opened Outcomes
  import opened Text

  datatype Directive = Define | SetVar | If | CheckFor | Print | Compile | Exit | Ignored

  /** The prefix that selects each directive. */
  function Prefix(d: Directive): string
  {
    match d
    case Define => "%define"
    case SetVar => "set"
    case If => "if"
    case CheckFor => "check_for"
    case Print => "print"
    case Compile => "compile"
    case Exit => "exit"
    case Ignored => ""
  }

  /** Position in the `if`/`elif` chain; `Ignored` comes last. */
  function Rank(d: Directive): nat
  {
    match d
    case Define => 0
    case SetVar => 1
    case If => 2
    case CheckFor => 3
    case Print => 4
    case Compile => 5
    case Exit => 6
    case Ignored => 7
  }

  /** The first directive, in the order `%define`, `set`, `if`,
      `check_for`, `print`, `compile`, `exit`, whose prefix starts the
      line; any other line is ignored. */
  function Classify(line: string): (d: Directive)
    ensures d != Ignored ==> StartsWith(line, Prefix(d))
    ensures forall e :: Rank(e) < Rank(d) ==> !StartsWith(line, Prefix(e))
  {
    if StartsWith(line, "%define") then Define
    else if StartsWith(line, "set") then SetVar
    else if StartsWith(line, "if") then If
    else if StartsWith(line, "check_for") then CheckFor
    else if StartsWith(line, "print") then Print
    else if StartsWith(line, "compile") then Compile
    else if StartsWith(line, "exit") then Exit
    else Ignored
  }

  /** A line that begins with `setup` is a `set` directive, and one that
      begins with `ifdef` an `if`. */
  lemma PrefixesAreLiteral()
    ensures Classify("setup") == SetVar
    ensures Classify("ifdef X") == If
  {
    assert StartsWith("setup", "set");
    assert !StartsWith("setup", "%define");
    assert StartsWith("ifdef X", "if");
    assert "ifdef X"[2] != "set"[2] && "ifdef X"[0] != "%define"[0];
    assert !StartsWith("ifdef X", "set") && !StartsWith("ifdef X", "%define");
  }

  /** Length of the prefix made of `' '` only (`[ ]*`). */
  function SpaceRun(s: string): (n: nat)
    ensures n <= |s| && forall k :: 0 <= k < n ==> s[k] == ' '
    ensures n < |s| ==> s[n] != ' '
    decreases |s|
  {
    if |s| > 0 && s[0] == ' ' then 1 + SpaceRun(s[1..]) else 0
  }

  /** Length of the prefix without a newline: how far `.` can reach. */
  function LineRun(s: string): (n: nat)
    ensures n <= |s| && forall k :: 0 <= k < n ==> s[k] != '\n'
    ensures n < |s| ==> s[n] == '\n'
    decreases |s|
  {
    if |s| > 0 && s[0] != '\n' then 1 + LineRun(s[1..]) else 0
  }

  /** The least `j` in `[lo, hi)` with `s[j] == ')'`. */
  function FirstClose(s: string, lo: nat, hi: nat): (r: Option<nat>)
    requires hi <= |s|
    ensures r.Some? ==> lo <= r.value < hi && s[r.value] == ')'
    ensures r.Some? ==> forall m :: lo <= m < r.value ==> s[m] != ')'
    ensures r.None? ==> forall m :: lo <= m < hi ==> s[m] != ')'
    decreases hi - lo
  {
    if lo >= hi then None
    else if s[lo] == ')' then Some(lo)
    else FirstClose(s, lo + 1, hi)
  }

  /** The greatest `j` in `[lo, hi)` with `s[j] == ')'`. */
  function LastClose(s: string, lo: nat, hi: nat): (r: Option<nat>)
    requires hi <= |s|
    ensures r.Some? ==> lo <= r.value < hi && s[r.value] == ')'
    ensures r.Some? ==> forall m :: r.value < m < hi ==> s[m] != ')'
    ensures r.None? ==> forall m :: lo <= m < hi ==> s[m] != ')'
    decreases hi
  {
    if lo >= hi then None
    else if s[hi - 1] == ')' then Some(hi - 1)
    else LastClose(s, lo, hi - 1)
  }

  /** The group of `kw[ ]*\((.+?)\)` (lazy) or `kw[ ]*\((.+)\)` (greedy)
      matched at the start of `t`. */
  function GroupAt(t: string, kw: string, greedy: bool): (r: Option<string>)
    ensures r.Some? ==> |r.value| >= 1 && '\n' !in r.value
    ensures r.Some? && !greedy ==> ')' !in r.value[1..]
    ensures r.Some? ==> LaidOut(t, kw, r.value, greedy)
  {
    if !StartsWith(t, kw) then None
    else
      var o := |kw| + SpaceRun(t[|kw|..]);
      if o >= |t| || t[o] != '(' then None
      else
        var body := t[o + 1..];
        var lim := LineRun(body);
        var close := if greedy then LastClose(body, 1, lim) else FirstClose(body, 1, lim);
        if close.None? then None
        else
          GroupLayout(t, kw, o, body, lim, close.value, greedy);
          Some(body[..close.value])
  }

  /** `t` is `kw`, spaces, `(`, the group `g` and `)`; a greedy group is
      followed by no other `)` on the line. */
  predicate LaidOut(t: string, kw: string, g: string, greedy: bool)
  {
    StartsWith(t, kw) &&
    var o := |kw| + SpaceRun(t[|kw|..]);
    var e := o + 1 + |g|;
    e < |t| && t[o] == '(' && t[o + 1..e] == g && t[e] == ')' &&
    (greedy ==> forall m :: e < m < o + 1 + LineRun(t[o + 1..]) ==> t[m] != ')')
  }

  /** The group ends at a `)` on the line: the first one after its first
      character when lazy, the last one when greedy. */
  lemma GroupLayout(t: string, kw: string, o: nat, body: string, lim: nat, c: nat, greedy: bool)
    requires StartsWith(t, kw) && o == |kw| + SpaceRun(t[|kw|..])
    requires o < |t| && t[o] == '(' && body == t[o + 1..] && lim == LineRun(body) && 1 <= c < lim
    requires body[c] == ')'
    requires greedy ==> forall m :: c < m < lim ==> body[m] != ')'
    requires !greedy ==> forall m :: 1 <= m < c ==> body[m] != ')'
    ensures var g := body[..c];
      |g| >= 1 && '\n' !in g && (!greedy ==> ')' !in g[1..]) && LaidOut(t, kw, g, greedy)
  {
    var g := body[..c];
    assert forall k :: 0 <= k < |g| ==> g[k] == body[k] != '\n';
    if !greedy {
      forall k | 0 <= k < |g[1..]|
        ensures g[1..][k] != ')'
      {
        var m := k + 1;
        assert g[1..][k] == body[m];
      }
    } else {
      forall j | o + 1 + |g| < j < o + 1 + lim
        ensures t[j] != ')'
      {
        var m := j - o - 1;
        assert c < m < lim && t[j] == body[m];
      }
    }
  }

  /** `re.search(...)`: the first position, from the left, where the
      pattern matches; `None` is the `AttributeError` of `.groups()` on a
      failed search. */
  function Search(s: string, kw: string, greedy: bool): (r: Option<string>)
    ensures r.Some? ==> |r.value| >= 1 && '\n' !in r.value
    ensures r.Some? && !greedy ==> ')' !in r.value[1..]
  {
    SearchFrom(s, kw, greedy, 0)
  }

  function SearchFrom(s: string, kw: string, greedy: bool, p: nat): (r: Option<string>)
    ensures r.Some? ==> |r.value| >= 1 && '\n' !in r.value
    ensures r.Some? && !greedy ==> ')' !in r.value[1..]
    decreases |s| - p
  {
    if p > |s| then None
    else match GroupAt(s[p..], kw, greedy)
      case Some(g) => Some(g)
      case None => SearchFrom(s, kw, greedy, p + 1)
  }

  lemma {:induction false} SearchFromSkips(s: string, kw: string, greedy: bool, p: nat, q: nat)
    requires p <= q <= |s|
    requires forall m :: p <= m < q ==> GroupAt(s[m..], kw, greedy).None?
    ensures SearchFrom(s, kw, greedy, p) == SearchFrom(s, kw, greedy, q)
    decreases q - p
  {
    if p < q {
      calc {
        SearchFrom(s, kw, greedy, p);
        { assert GroupAt(s[p..], kw, greedy).None?; }
        SearchFrom(s, kw, greedy, p + 1);
        { SearchFromSkips(s, kw, greedy, p + 1, q); }
        SearchFrom(s, kw, greedy, q);
      }
    }
  }

  /** `re.search` gives the group of the leftmost position where the
      pattern matches. */
  lemma SearchFindsLeftmost(s: string, kw: string, greedy: bool, q: nat)
    requires q <= |s| && GroupAt(s[q..], kw, greedy).Some?
    requires forall m :: 0 <= m < q ==> GroupAt(s[m..], kw, greedy).None?
    ensures Search(s, kw, greedy) == GroupAt(s[q..], kw, greedy)
  {
    SearchFromSkips(s, kw, greedy, 0, q);
  }

  lemma {:induction false} SearchFromFails(s: string, kw: string, greedy: bool, p: nat)
    ensures SearchFrom(s, kw, greedy, p).None? <==>
      forall m :: p <= m <= |s| ==> GroupAt(s[m..], kw, greedy).None?
    decreases |s| - p
  {
    if p <= |s| {
      SearchFromFails(s, kw, greedy, p + 1);
    }
  }

  /** `re.search` fails exactly when the pattern matches at no position. */
  lemma SearchFails(s: string, kw: string, greedy: bool)
    ensures Search(s, kw, greedy).None? <==> forall m :: 0 <= m <= |s| ==> GroupAt(s[m..], kw, greedy).None?
  {
    SearchFromFails(s, kw, greedy, 0);
  }

  /** In `g)`, the `)` that closes the group is the one after `g`. */
  lemma CloseOfCall(g: string, greedy: bool)
    requires |g| >= 1 && (!greedy ==> ')' !in g[1..])
    ensures greedy ==> LastClose(g + ")", 1, |g| + 1) == Some(|g|)
    ensures !greedy ==> FirstClose(g + ")", 1, |g| + 1) == Some(|g|)
  {
    var body := g + ")";
    assert |body| == |g| + 1 && body[|g|] == ')';
    if !greedy {
      forall m | 1 <= m < |g|
        ensures body[m] != ')'
      {
        assert body[m] == g[1..][m - 1];
      }
    }
  }

  /** `kw(g)` is `kw`, no spaces, `(` and then `g)`. */
  lemma CallLayout(kw: string, g: string)
    ensures var t := kw + "(" + g + ")";
      StartsWith(t, kw) && SpaceRun(t[|kw|..]) == 0 && |kw| < |t| && t[|kw|] == '(' && t[|kw| + 1..] == g + ")"
  {
    var t := kw + "(" + g + ")";
    assert t[..|kw|] == kw;
    assert t[|kw|..][0] == '(';
    assert t[|kw| + 1..] == g + ")";
  }

  /** A line that is exactly `kw(g)` yields the group `g`, read lazily or
      greedily, when `g` is one line and, read lazily, holds no `)` after
      its first character. */
  lemma GroupOfCall(kw: string, g: string, greedy: bool)
    requires |g| >= 1 && '\n' !in g && (!greedy ==> ')' !in g[1..])
    ensures Search(kw + "(" + g + ")", kw, greedy) == Some(g)
  {
    var t := kw + "(" + g + ")";
    CallLayout(kw, g);
    var body := g + ")";
    assert '\n' !in body;
    assert LineRun(body) == |body|;
    CloseOfCall(g, greedy);
    assert body[..|g|] == g;
    assert GroupAt(t, kw, greedy) == Some(g);
    assert t[0..] == t;
  }

  /** `[f(x) for x in xs]` with `f` = `strip`. */
  function StripAll(xs: seq<string>): (r: seq<string>)
    ensures |r| == |xs| && forall k :: 0 <= k < |xs| ==> r[k] == Strip(xs[k])
  {
    seq(|xs|, k requires 0 <= k < |xs| => Strip(xs[k]))
  }

  /** `[x for x in xs if x]` */
  function NonEmpty(xs: seq<string>): (r: seq<string>)
    ensures |r| <= |xs|
    ensures forall x :: x in r <==> x in xs && x != ""
    decreases |xs|
  {
    if |xs| == 0 then []
    else
      assert forall x :: x in xs <==> x == xs[0] || x in xs[1..];
      (if xs[0] == "" then [] else [xs[0]]) + NonEmpty(xs[1..])
  }

  /** Filtering a concatenation filters each part in turn: every non-empty
      piece is kept, in order. */
  lemma {:induction false} NonEmptyConcat(a: seq<string>, b: seq<string>)
    ensures NonEmpty(a + b) == NonEmpty(a) + NonEmpty(b)
    decreases |a|
  {
    if a == [] {
      assert a + b == b;
    } else {
      NonEmptyConcat(a[1..], b);
      assert (a + b)[1..] == a[1..] + b;
    }
  }

  /** A piece is kept exactly when it is not empty. */
  lemma NonEmptySingle(x: string)
    ensures NonEmpty([x]) == if x == "" then [] else [x]
  {
  }

  /** `%define NAME VALUE`: `line.split(" ", 2)` unpacked into three names;
      any other number of pieces is Python's `ValueError`. */
  function DefineParts(line: string): (r: Res<(string, string)>)
    ensures r.Ok? || r.Crash?
  {
    var parts := SplitMax(line, " ", 2);
    if |parts| != 3 then Crash("ValueError in %define") else Ok((parts[1], parts[2]))
  }

  /** The value of a define is the rest of the line after its name, spaces
      and all. */
  lemma DefineTakesRestOfLine(name: string, value: string)
    requires ' ' !in name
    ensures DefineParts("%define " + name + " " + value) == Ok((name, value))
  {
    var line := "%define " + name + " " + value;
    assert ' ' !in "%define";
    assert line == "%define" + [' '] + (name + [' '] + value);
    SplitAfterPiece("%define", ' ', name + [' '] + value);
    SplitAfterPiece(name, ' ', value);
    var pieces := Split(line, " ");
    var rest := Split(value, " ");
    assert pieces == ["%define", name] + rest;
    JoinSplit(value, " ");
    if |pieces| > 3 {
      assert pieces[2..] == rest;
    } else {
      assert |rest| == 1;
      assert Join(rest, " ") == rest[0];
    }
  }

  /** `set(K, V)`: the lazy group split on `,`, empty pieces dropped, the
      rest stripped, unpacked into two. */
  function SetParts(line: string): (r: Res<(string, string)>)
    ensures r.Ok? || r.Crash?
  {
    match Search(line, "set", false)
    case None => Crash("AttributeError in set")
    case Some(g) =>
      var parts := StripAll(NonEmpty(Split(g, ",")));
      if |parts| != 2 then Crash("ValueError in set") else Ok((parts[0], parts[1]))
  }

  /** `%define NAME` without a value is the unpacking `ValueError`. */
  lemma DefineWithoutValueCrashes(name: string)
    requires ' ' !in name
    ensures DefineParts("%define " + name) == Crash("ValueError in %define")
  {
    assert ' ' !in "%define";
    assert "%define " + name == "%define" + [' '] + name;
    SplitAfterPiece("%define", ' ', name);
    SplitAfterPiece(name, ' ', "");
  }

  /** `K, V` split on its comma. */
  lemma PairPieces(k: string, v: string)
    requires ',' !in k && ',' !in v
    ensures Split(k + ", " + v, ",") == [k, " " + v]
  {
    assert ',' !in " " + v;
    assert k + ", " + v == k + [','] + (" " + v);
    SplitAfterPiece(k, ',', " " + v);
    SplitAfterPiece(" " + v, ',', "");
  }

  /** `set(K, V)` binds the stripped `K` to the stripped `V`. */
  lemma SetBindsStrippedPair(k: string, v: string)
    requires |k| >= 1 && ',' !in k && ')' !in k && '\n' !in k
    requires ',' !in v && ')' !in v && '\n' !in v
    ensures SetParts("set(" + k + ", " + v + ")") == Ok((Strip(k), Strip(v)))
  {
    var g := k + ", " + v;
    assert "set(" + k + ", " + v + ")" == "set" + "(" + g + ")";
    assert forall x :: x in g[1..] ==> x in g;
    GroupOfCall("set", g, false);
    PairPieces(k, v);
    assert NonEmpty([k, " " + v]) == [k, " " + v] by {
      assert [k, " " + v][1..] == [" " + v];
      NonEmptySingle(" " + v);
    }
    StripSpaceHead(v);
  }

  /** `if(COND)`: the greedy group with every space removed. */
  function IfCondition(line: string): (r: Res<string>)
    ensures r.Ok? ==> ' ' !in r.value
    ensures r.Ok? || r.Crash?
  {
    match Search(line, "if", true)
    case None => Crash("AttributeError in if")
    case Some(g) =>
      var c := ReplaceAll(g, " ", "");
      assert ' ' !in c by { RemoveAllOfChar(g, ' '); }
      Ok(c)
  }

  /** `s.replace(c, "")` leaves no `c`. */
  lemma {:induction false} RemoveAllOfChar(s: string, c: char)
    ensures c !in ReplaceAll(s, [c], "")
    decreases |s|
  {
    if s != [] {
      RemoveAllOfChar(s[1..], c);
    }
  }

  /** `if(COND)` reads everything up to the last `)` of the line, spaces
      removed. */
  lemma IfTakesWholeCondition(c: string)
    requires |c| >= 1 && '\n' !in c
    ensures IfCondition("if(" + c + ")") == Ok(ReplaceAll(c, " ", ""))
  {
    assert "if(" == "if" + "(";
    GroupOfCall("if", c, true);
  }

  /** `check_for(L1, L2, ...)`: the lazy group without spaces, split on `,`. */
  function CheckForLanguages(line: string): (r: Res<seq<string>>)
    ensures r.Ok? ==> |r.value| >= 1
    ensures r.Ok? || r.Crash?
  {
    match Search(line, "check_for", false)
    case None => Crash("AttributeError in check_for")
    case Some(g) => Ok(StripAll(Split(ReplaceAll(g, " ", ""), ",")))
  }

  /** A language name as `check_for` lists it: non-empty, without white
      space, `,` or `)`. */
  predicate IsName(w: string)
  {
    |w| > 0 && forall i :: 0 <= i < |w| ==> !IsSpace(w[i]) && w[i] != ',' && w[i] != ')'
  }

  lemma NameChars(w: string)
    requires IsName(w)
    ensures ' ' !in w && '\n' !in w && ',' !in w && ')' !in w
    ensures Strip(w) == w
  {
    assert IsSpace(' ') && IsSpace('\n');
    StripTrimmed(w);
  }

  /** Removing the spaces of `L1, L2, ...` leaves `L1,L2,...`. */
  lemma {:induction false} DropSpaces(ls: seq<string>)
    requires forall k :: 0 <= k < |ls| ==> ' ' !in ls[k]
    ensures ReplaceAll(Join(ls, ", "), " ", "") == Join(ls, ",")
    decreases |ls|
  {
    if |ls| == 1 {
      NoCharNoContains(ls[0], ' ');
      ReplaceAbsent(ls[0], " ", "");
    } else if |ls| > 1 {
      var rest := Join(ls[1..], ", ");
      assert Join(ls, ", ") == ls[0] + (", " + rest);
      ReplaceCharConcat(ls[0], ", " + rest, ' ', "");
      ReplaceCharConcat(", ", rest, ' ', "");
      assert ReplaceAll(", ", " ", "") == ",";
      NoCharNoContains(ls[0], ' ');
      ReplaceAbsent(ls[0], " ", "");
      DropSpaces(ls[1..]);
    }
  }

  /** `L1, L2, ...` is a one-line group with no `)`. */
  lemma NamesGroup(ls: seq<string>)
    requires |ls| >= 1 && forall k :: 0 <= k < |ls| ==> IsName(ls[k])
    ensures Search("check_for(" + Join(ls, ", ") + ")", "check_for", false) == Some(Join(ls, ", "))
  {
    var g := Join(ls, ", ");
    assert '\n' !in g && ')' !in g by {
      forall k | 0 <= k < |ls|
        ensures '\n' !in ls[k] && ')' !in ls[k]
      {
        NameChars(ls[k]);
      }
      JoinKeepsOut(ls, ", ", '\n');
      JoinKeepsOut(ls, ", ", ')');
    }
    assert |g| >= 1 by {
      assert |g| >= |ls[0]|;
    }
    CheckForGroup(g);
  }

  lemma CheckForGroup(g: string)
    requires |g| >= 1 && '\n' !in g && ')' !in g
    ensures Search("check_for(" + g + ")", "check_for", false) == Some(g)
  {
    assert forall x :: x in g[1..] ==> x in g;
    assert "check_for(" == "check_for" + "(";
    GroupOfCall("check_for", g, false);
  }

  /** `L1, L2, ...` without spaces, split on `,` and stripped, is the list. */
  lemma NamesPieces(ls: seq<string>)
    requires |ls| >= 1 && forall k :: 0 <= k < |ls| ==> IsName(ls[k])
    ensures StripAll(Split(ReplaceAll(Join(ls, ", "), " ", ""), ",")) == ls
  {
    forall k | 0 <= k < |ls|
      ensures ' ' !in ls[k] && ',' !in ls[k] && Strip(ls[k]) == ls[k]
    {
      NameChars(ls[k]);
    }
    DropSpaces(ls);
    SplitJoin(ls, ',');
  }

  /** `check_for(L1, L2, ...)` lists the languages `L1`, `L2`, ... in the
      order they are written. */
  lemma CheckForListsLanguages(ls: seq<string>)
    requires |ls| >= 1 && forall k :: 0 <= k < |ls| ==> IsName(ls[k])
    ensures CheckForLanguages("check_for(" + Join(ls, ", ") + ")") == Ok(ls)
  {
    NamesGroup(ls);
    NamesPieces(ls);
  }

  /** `compile(KIND, FILES)`: the lazy group split on `,` and stripped,
      unpacked into two. */
  function CompileParts(line: string): (r: Res<(string, string)>)
    ensures r.Ok? || r.Crash?
  {
    match Search(line, "compile", false)
    case None => Crash("AttributeError in compile")
    case Some(g) =>
      var parts := StripAll(Split(g, ","));
      if |parts| != 2 then Crash("ValueError in compile") else Ok((parts[0], parts[1]))
  }

  /** `compile(KIND, FILES)` yields the stripped kind and the stripped file
      list. */
  lemma CompileNamesKindAndFiles(kind: string, files: string)
    requires ',' !in kind && ')' !in kind && '\n' !in kind
    requires ',' !in files && ')' !in files && '\n' !in files
    ensures CompileParts("compile(" + kind + ", " + files + ")") == Ok((Strip(kind), Strip(files)))
  {
    var g := kind + ", " + files;
    assert "compile(" + kind + ", " + files + ")" == "compile" + "(" + g + ")";
    assert forall x :: x in g[1..] ==> x in g;
    GroupOfCall("compile", g, false);
    PairPieces(kind, files);
    StripSpaceHead(files);
  }

  /** `exit [N]`: the non-empty space-separated words, stripped; the second
      one read by `int()`, 0 when there is none. */
  function ExitCode(line: string): (r: Res<int>)
    ensures r.Ok? || r.Crash?
    ensures |StripAll(NonEmpty(Split(line, " ")))| <= 1 ==> r == Ok(0)
  {
    var words := StripAll(NonEmpty(Split(line, " ")));
    if |words| <= 1 then Ok(0)
    else match ParseInt(words[1])
      case None => Crash("ValueError in exit")
      case Some(n) => Ok(n)
  }

  /** `exit N` ends the run with the number it names. */
  lemma ExitCodeOfNumber(n: nat)
    ensures ExitCode("exit " + Decimal(n)) == Ok(n)
  {
    var d := Decimal(n);
    assert ' ' !in d by {
      assert forall k :: 0 <= k < |d| ==> IsDigit(d[k]);
    }
    assert ' ' !in "exit";
    SplitAfterPiece("exit", ' ', d);
    SplitAfterPiece(d, ' ', "");
    assert "exit " + d == "exit" + [' '] + d;
    assert Split("exit " + d, " ") == ["exit", d];
    assert NonEmpty(["exit", d]) == ["exit", d] by {
      assert NonEmpty([d]) == [d];
      assert ["exit", d][1..] == [d];
    }
    StripDigits(d);
    ParseDecimal(n);
  }

  lemma StripDigits(d: string)
    requires |d| > 0 && forall k :: 0 <= k < |d| ==> IsDigit(d[k])
    ensures Strip(d) == d
  {
    StripTrimmed(d);
  }
}
