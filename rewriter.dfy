/** The line rewriter of akbs/__main__.py: `clrdefines`, then `clrvars`,
    then `clrfuncs`, then `strip()`, applied to every line the interpreter
    executes. */
module Rewriter {

  import opened Outcomes
  import opened Text
  import opened Tables
  import opened Builtins

  // ---------------------------------------------------------------------
  // Define and variable substitution (`clrdefines`, `clrvars`)
  // ---------------------------------------------------------------------

  /** The entries whose pattern occurs in `data`, in table order: the list
      the source builds once, before it replaces anything. */
  function Present(pats: Table, data: string): (r: Table)
    ensures |r| <= |pats|
    decreases |pats|
  {
    if |pats| == 0 then []
    else (if Contains(data, pats[0].key) then [pats[0]] else []) + Present(pats[1..], data)
  }

  /** An entry is on the work list exactly when it is in the table and its
      pattern occurs; with no pattern occurring the list is empty. */
  lemma {:induction false} PresentMembers(pats: Table, data: string)
    ensures forall e :: e in Present(pats, data) <==> e in pats && Contains(data, e.key)
    ensures (forall i :: 0 <= i < |pats| ==> !Contains(data, pats[i].key)) ==> Present(pats, data) == []
    decreases |pats|
  {
    if |pats| > 0 {
      PresentMembers(pats[1..], data);
      assert forall e :: e in pats <==> e == pats[0] || e in pats[1..];
    }
  }

  /** The work list of a concatenated table is the work list of each part
      in turn: entries keep their table order and their repetitions. */
  lemma {:induction false} PresentConcat(a: Table, b: Table, data: string)
    ensures Present(a + b, data) == Present(a, data) + Present(b, data)
    decreases |a|
  {
    if a == [] {
      assert a + b == b;
    } else {
      var head := if Contains(data, a[0].key) then [a[0]] else [];
      var rest := a[1..];
      assert Present(a + b, data) == head + Present(rest + b, data) by {
        assert a + b == [a[0]] + (rest + b);
        PresentCons(a[0], rest + b, data);
      }
      assert Present(a, data) == head + Present(rest, data) by {
        assert [a[0]] + rest == a;
        PresentCons(a[0], rest, data);
      }
      PresentConcat(rest, b, data);
    }
  }

  lemma PresentCons(e: Entry, rest: Table, data: string)
    ensures Present([e] + rest, data) == (if Contains(data, e.key) then [e] else []) + Present(rest, data)
  {
    assert ([e] + rest)[1..] == rest;
  }

  /** One entry is on the work list exactly when its pattern occurs. */
  lemma PresentSingle(e: Entry, data: string)
    ensures Present([e], data) == if Contains(data, e.key) then [e] else []
  {
  }

  /** Replace each pair's pattern by its value, taking the pairs from the
      end of the list (`there.pop()`), each one once. */
  function ReplaceFromLast(pairs: Table, data: string): string
    decreases |pairs|
  {
    if |pairs| == 0 then data
    else
      var e := pairs[|pairs| - 1];
      ReplaceFromLast(pairs[..|pairs| - 1], ReplaceAll(data, e.key, e.value))
  }

  /** One substitution pass: only names present on entry are replaced, so
      a name that a replacement introduces is left as it is. */
  function Substitute(pats: Table, data: string): string
  {
    ReplaceFromLast(Present(pats, data), data)
  }

  /** The variable table seen as patterns: `$NAME` stands for the value of `NAME`. */
  function Sigiled(vars: Table): (r: Table)
    ensures |r| == |vars|
    ensures forall i :: 0 <= i < |vars| ==> r[i] == Entry("$" + vars[i].key, vars[i].value)
  {
    seq(|vars|, i requires 0 <= i < |vars| => Entry("$" + vars[i].key, vars[i].value))
  }

  function ExpandDefines(defines: Table, data: string): string
  {
    Substitute(defines, data)
  }

  function ExpandVariables(vars: Table, data: string): string
  {
    Substitute(Sigiled(vars), data)
  }

  /** With a single variable, `clrvars` is the replacement of `$NAME` by
      its value. */
  lemma ExpandsOneVariable(name: string, value: string, data: string)
    ensures ExpandVariables([Entry(name, value)], data) == ReplaceAll(data, "$" + name, value)
  {
    var e := Entry("$" + name, value);
    assert Sigiled([Entry(name, value)]) == [e];
    PresentSingle(e, data);
    if Contains(data, e.key) {
      assert [e][..0] == [];
      assert ReplaceFromLast([e], data) == ReplaceAll(data, e.key, value);
    } else {
      ReplaceAbsent(data, e.key, value);
    }
  }

  /** The `while there: data = data.replace(*there.pop())` loop. */
  method SubstitutePresent(pats: Table, data: string) returns (r: string)
    ensures r == Substitute(pats, data)
  {
    var there := Present(pats, data);
    r := data;
    while |there| > 0
      invariant ReplaceFromLast(there, r) == Substitute(pats, data)
      decreases |there|
    {
      var e := there[|there| - 1];
      there := there[..|there| - 1];
      r := ReplaceAll(r, e.key, e.value);
    }
  }

  /** `clrdefines(data)` */
  method ClearDefines(defines: Table, data: string) returns (r: string)
    ensures r == ExpandDefines(defines, data)
  {
    r := SubstitutePresent(defines, data);
  }

  /** `clrvars(data)` */
  method ClearVars(vars: Table, data: string) returns (r: string)
    ensures r == ExpandVariables(vars, data)
  {
    r := SubstitutePresent(Sigiled(vars), data);
  }

  /** With two names present, the one inserted later is replaced first. */
  lemma SubstituteReverseOrder(pats: Table, data: string, first: Entry, second: Entry)
    requires Present(pats, data) == [first, second]
    ensures Substitute(pats, data) == ReplaceAll(ReplaceAll(data, second.key, second.value), first.key, first.value)
  {
    var mid := ReplaceAll(data, second.key, second.value);
    assert [first, second][..1] == [first];
    assert [first][..0] == [];
    assert ReplaceFromLast([first], mid) == ReplaceAll(mid, first.key, first.value);
  }

  /** A name that does not occur in the line on entry is never replaced,
      wherever it stands in the table: not even when an earlier
      replacement brings it into the line. */
  lemma AbsentNameIsIgnored(a: Table, e: Entry, b: Table, data: string)
    requires !Contains(data, e.key)
    ensures Substitute(a + [e] + b, data) == Substitute(a + b, data)
  {
    PresentConcat(a + [e], b, data);
    PresentConcat(a, [e], data);
    PresentSingle(e, data);
    PresentConcat(a, b, data);
    assert Present(a, data) + [] == Present(a, data);
  }

  /** With one name present on entry, the line is that one replacement:
      what its value introduces is not expanded again. */
  lemma OnePresentNameReplacedOnce(pats: Table, data: string, e: Entry)
    requires Present(pats, data) == [e]
    ensures Substitute(pats, data) == ReplaceAll(data, e.key, e.value)
  {
    assert [e][..0] == [];
    assert ReplaceFromLast([e], data) == ReplaceFromLast([], ReplaceAll(data, e.key, e.value));
  }

  /** A define whose value names another define is not expanded again:
      with `A` defined as `B` and `B` as `x`, the line `A` becomes `B`. */
  lemma DefineIsNotRescanned(defines: Table)
    requires defines == [Entry("A", "B"), Entry("B", "x")]
    ensures ExpandDefines(defines, "A") == "B"
  {
    var pats := [Entry("A", "B"), Entry("B", "x")];
    assert StartsWith("A", "A");
    assert !Contains("A", "B");
    assert Present(pats[1..], "A") == [];
    assert Present(pats, "A") == [Entry("A", "B")];
    assert ReplaceAll("", "A", "B") == "";
    assert ReplaceAll("A", "A", "B") == "B";
  }

  /** Order decides between `$A` and `$AB`: with `A` set before `AB`, both
      are present in `$AB`, `$AB` is replaced first and the line becomes
      the value of `AB`. */
  lemma LongerVariableFirstWhenSetLater()
    ensures ExpandVariables([Entry("A", "1"), Entry("AB", "2")], "$AB") == "2"
  {
    var pats := Sigiled([Entry("A", "1"), Entry("AB", "2")]);
    assert "$" + "A" == "$A" && "$" + "AB" == "$AB";
    assert pats == [Entry("$A", "1"), Entry("$AB", "2")];
    assert StartsWith("$AB", "$A") && StartsWith("$AB", "$AB");
    assert Present(pats[1..], "$AB") == [Entry("$AB", "2")];
    assert Present(pats, "$AB") == [Entry("$A", "1"), Entry("$AB", "2")];
    assert ReplaceAll("", "$AB", "2") == "";
    assert ReplaceAll("$AB", "$AB", "2") == "2";
    assert !StartsWith("2", "$A") && ReplaceAll("", "$A", "1") == "";
    assert ReplaceAll("2", "$A", "1") == "2";
    SubstituteReverseOrder(pats, "$AB", Entry("$A", "1"), Entry("$AB", "2"));
  }

  /** With `AB` set before `A`, the shorter `$A` is replaced first and the
      line `$AB` becomes the value of `A` followed by `B`. */
  lemma ShorterVariableFirstWhenSetLater()
    ensures ExpandVariables([Entry("AB", "2"), Entry("A", "1")], "$AB") == "1B"
  {
    var pats := Sigiled([Entry("AB", "2"), Entry("A", "1")]);
    assert "$" + "A" == "$A" && "$" + "AB" == "$AB";
    assert pats == [Entry("$AB", "2"), Entry("$A", "1")];
    assert StartsWith("$AB", "$A") && StartsWith("$AB", "$AB");
    assert Present(pats[1..], "$AB") == [Entry("$A", "1")];
    assert Present(pats, "$AB") == [Entry("$AB", "2"), Entry("$A", "1")];
    assert ReplaceAll("B", "$A", "1") == "B" by {
      assert !StartsWith("B", "$A") && ReplaceAll("", "$A", "1") == "";
    }
    assert ReplaceAll("$AB", "$A", "1") == "1B";
    assert !StartsWith("1B", "$AB") && !StartsWith("B", "$AB") && ReplaceAll("", "$AB", "2") == "";
    assert ReplaceAll("1B", "$AB", "2") == "1B";
    SubstituteReverseOrder(pats, "$AB", Entry("$AB", "2"), Entry("$A", "1"));
  }

  // ---------------------------------------------------------------------
  // Inline calls (`clrfuncs` and `handle_command`)
  // ---------------------------------------------------------------------

  /** The character class `[a-zA-Z\$]` of a call's name. */
  predicate IsNameChar(c: char)
  {
    ('a' <= c <= 'z') || ('A' <= c <= 'Z') || c == '$'
  }

  predicate IsParen(c: char)
  {
    c == '(' || c == ')'
  }

  /** Length of the longest prefix of name characters. */
  function NameRun(s: string): (n: nat)
    ensures n <= |s|
    ensures forall k :: 0 <= k < n ==> IsNameChar(s[k])
    ensures n < |s| ==> !IsNameChar(s[n])
    decreases |s|
  {
    if |s| > 0 && IsNameChar(s[0]) then 1 + NameRun(s[1..]) else 0
  }

  /** Length of the longest prefix with no parenthesis (`[^()]`). */
  function ArgsRun(s: string): (n: nat)
    ensures n <= |s|
    ensures forall k :: 0 <= k < n ==> !IsParen(s[k])
    ensures n < |s| ==> IsParen(s[n])
    decreases |s|
  {
    if |s| > 0 && !IsParen(s[0]) then 1 + ArgsRun(s[1..]) else 0
  }

  /** The two groups of a match of `([a-zA-Z\$]+)\(([^()]+)\)`. */
  datatype Call = Call(name: string, args: string)
  {
    function Text(): string { name + "(" + args + ")" }
  }

  /** What the regular expression demands of a match at the start of `s`. */
  ghost predicate CallAt(s: string, c: Call)
  {
    && |c.name| >= 1 && (forall k :: 0 <= k < |c.name| ==> IsNameChar(c.name[k]))
    && |c.args| >= 1 && (forall k :: 0 <= k < |c.args| ==> !IsParen(c.args[k]))
    && StartsWith(s, c.Text())
  }

  /** The regular expression tried at the start of `s`. The greedy name
      run must be followed by `(`, the greedy argument run by `)`;
      backtracking cannot help either, because a shorter run is followed
      by a character of the run itself. Whatever it finds is a match. */
  function MatchCall(s: string): (r: Option<Call>)
    ensures r.Some? ==> CallAt(s, r.value)
  {
    var n := NameRun(s);
    if n == 0 || n >= |s| || s[n] != '(' then None
    else
      var a := ArgsRun(s[n + 1..]);
      if a == 0 || n + 1 + a >= |s| || s[n + 1 + a] != ')' then None
      else
        var c := Call(s[..n], s[n + 1..n + 1 + a]);
        assert s[..|c.Text()|] == c.Text() by {
          assert s[..n + a + 2] == s[..n] + [s[n]] + s[n + 1..n + 1 + a] + [s[n + 1 + a]];
        }
        Some(c)
  }

  /** The scanner misses no match: wherever the regular expression matches,
      the scanner finds that same match. */
  lemma MatchCallFindsEveryMatch(s: string, c: Call)
    requires CallAt(s, c)
    ensures MatchCall(s) == Some(c)
  {
    var n := |c.name|;
    var a := |c.args|;
    CallChars(s, c);
    forall k | 0 <= k < n
      ensures IsNameChar(s[k])
    {
      assert s[k] == s[..n][k];
    }
    NameRunIs(s, n);
    var rest := s[n + 1..];
    forall k | 0 <= k < a
      ensures !IsParen(rest[k])
    {
      assert rest[k] == s[n + 1..n + 1 + a][k];
    }
    assert rest[a] == ')';
    ArgsRunIs(rest, a);
  }

  /** Where the parts of a call's text sit in a string that starts with it. */
  lemma CallChars(s: string, c: Call)
    requires StartsWith(s, c.Text())
    ensures |c.name| + |c.args| + 2 <= |s|
    ensures s[..|c.name|] == c.name && s[|c.name|] == '('
    ensures s[|c.name| + 1..|c.name| + 1 + |c.args|] == c.args && s[|c.name| + 1 + |c.args|] == ')'
  {
    var t := c.Text();
    var n := |c.name|;
    var a := |c.args|;
    assert s[..|t|] == t;
    assert t[..n] == c.name && t[n] == '(';
    assert t[n + 1..n + 1 + a] == c.args && t[n + 1 + a] == ')';
    assert s[..n] == t[..n];
    assert s[n + 1..n + 1 + a] == t[n + 1..n + 1 + a];
  }

  lemma {:induction false} NameRunIs(s: string, n: nat)
    requires n < |s| && !IsNameChar(s[n]) && forall k :: 0 <= k < n ==> IsNameChar(s[k])
    ensures NameRun(s) == n
    decreases n
  {
    if n > 0 {
      assert IsNameChar(s[0]);
      NameRunIs(s[1..], n - 1);
    }
  }

  lemma {:induction false} ArgsRunIs(s: string, n: nat)
    requires n < |s| && IsParen(s[n]) && forall k :: 0 <= k < n ==> !IsParen(s[k])
    ensures ArgsRun(s) == n
    decreases n
  {
    if n > 0 {
      assert !IsParen(s[0]);
      ArgsRunIs(s[1..], n - 1);
    }
  }

  /** `[i.strip() for i in ags.split(",")]` */
  function ArgList(args: string): (r: seq<string>)
    ensures |r| >= 1
  {
    var pieces := Split(args, ",");
    seq(|pieces|, k requires 0 <= k < |pieces| => Strip(pieces[k]))
  }

  predicate EndsWithDollar(name: string)
  {
    |name| > 0 && name[|name| - 1] == '$'
  }

  /** `handle_command`: a name without a final `$` gives back the matched
      text; a `$` name not in the table is the fatal "Command not found". */
  function Invoke(vars: Table, c: Call): (r: Res<string>)
    ensures !EndsWithDollar(c.name) ==> r == Ok(c.Text())
    ensures EndsWithDollar(c.name) && Lookup(c.name).None? ==> r == Fatal("Command not found: " + c.name)
    ensures r.Ok? && EndsWithDollar(c.name) && '(' !in c.args ==> '(' !in r.value
  {
    if !EndsWithDollar(c.name) then Ok(c.Text())
    else match Lookup(c.name)
      case None => Fatal("Command not found: " + c.name)
      case Some(Outside(n)) => Unmodelled(n)
      case Some(Pure(b)) =>
        var ags := ArgList(c.args);
        assert '(' !in c.args ==> forall k :: 0 <= k < |ags| ==> '(' !in ags[k] by {
          if '(' !in c.args {
            SplitKeepsOut(c.args, ",", '(');
            forall k | 0 <= k < |ags| ensures '(' !in ags[k] {
              StripKeepsOut(Split(c.args, ",")[k], '(');
            }
          }
        }
        Apply(b, ags, vars)
  }

  /** One `re.sub` pass: scan from the left, replace each match by the
      result of `handle_command` and resume after it; a failing call stops
      the pass. */
  function Pass(vars: Table, s: string): Res<string>
    decreases |s|
  {
    if s == [] then Ok([])
    else match MatchCall(s)
      case Some(c) =>
        var t :- Invoke(vars, c);
        var rest :- Pass(vars, s[|c.Text()|..]);
        Ok(t + rest)
      case None =>
        var rest :- Pass(vars, s[1..]);
        Ok([s[0]] + rest)
  }

  /** The number of `(` in a string. */
  function Opens(s: string): nat
  {
    multiset(s)['(']
  }

  lemma MatchedText(s: string, c: Call)
    requires MatchCall(s) == Some(c)
    ensures StartsWith(s, c.Text()) && |c.Text()| <= |s|
    ensures Opens(c.Text()) == 1 && '(' !in c.args
  {
    assert '(' !in c.name by {
      assert forall k :: 0 <= k < |c.name| ==> c.name[k] != '(';
    }
    assert '(' !in c.args by {
      assert forall k :: 0 <= k < |c.args| ==> c.args[k] != '(';
    }
    assert multiset(c.Text()) == multiset(c.name) + multiset{'('} + multiset(c.args) + multiset{')'};
  }

  /** A pass never adds a `(`, and a pass that keeps their number keeps the
      whole string: every call it evaluates removes one. This is why
      `clrfuncs` stops. */
  lemma {:induction false} PassShrinks(vars: Table, s: string)
    requires Pass(vars, s).Ok?
    ensures Opens(Pass(vars, s).value) <= Opens(s)
    ensures Opens(Pass(vars, s).value) == Opens(s) ==> Pass(vars, s).value == s
    decreases |s|
  {
    if s != [] {
      match MatchCall(s)
      case Some(c) =>
        var tail := PassOfCall(vars, s, c);
        PassShrinks(vars, tail);
        ShrinksAtCall(vars, s, c, tail);
      case None =>
        PassShrinks(vars, s[1..]);
        ShrinksAtChar(vars, s);
    }
  }

  /** The step of `PassShrinks` at a call, from its claim about the rest. */
  lemma ShrinksAtCall(vars: Table, s: string, c: Call, tail: string)
    requires s != [] && MatchCall(s) == Some(c) && s == c.Text() + tail
    requires Pass(vars, s).Ok? && Pass(vars, tail).Ok?
    requires Pass(vars, s).value == Invoke(vars, c).value + Pass(vars, tail).value
    requires Opens(Pass(vars, tail).value) <= Opens(tail)
    requires Opens(Pass(vars, tail).value) == Opens(tail) ==> Pass(vars, tail).value == tail
    ensures Opens(Pass(vars, s).value) <= Opens(s)
    ensures Opens(Pass(vars, s).value) == Opens(s) ==> Pass(vars, s).value == s
  {
    MatchedText(s, c);
    var t := Invoke(vars, c).value;
    if EndsWithDollar(c.name) {
      assert Opens(t) == 0 by {
        assert '(' !in t;
      }
    }
    CountStep(c.Text(), tail, t, Pass(vars, tail).value);
  }

  /** The step of `PassShrinks` at a character that starts no call. */
  lemma ShrinksAtChar(vars: Table, s: string)
    requires s != [] && MatchCall(s).None? && Pass(vars, s).Ok?
    requires Pass(vars, s[1..]).Ok?
    requires Opens(Pass(vars, s[1..]).value) <= Opens(s[1..])
    requires Opens(Pass(vars, s[1..]).value) == Opens(s[1..]) ==> Pass(vars, s[1..]).value == s[1..]
    ensures Opens(Pass(vars, s).value) <= Opens(s)
    ensures Opens(Pass(vars, s).value) == Opens(s) ==> Pass(vars, s).value == s
  {
    var rest := Pass(vars, s[1..]).value;
    assert Pass(vars, s).value == [s[0]] + rest;
    assert s == [s[0]] + s[1..];
    CountStep([s[0]], s[1..], [s[0]], rest);
  }

  /** A pass that starts at a call is the call's value followed by a pass
      over the rest. */
  lemma PassOfCall(vars: Table, s: string, c: Call) returns (tail: string)
    requires s != [] && MatchCall(s) == Some(c) && Pass(vars, s).Ok?
    ensures s == c.Text() + tail && |tail| < |s|
    ensures Invoke(vars, c).Ok? && Pass(vars, tail).Ok?
    ensures Pass(vars, s).value == Invoke(vars, c).value + Pass(vars, tail).value
  {
    MatchedText(s, c);
    tail := s[|c.Text()|..];
    assert s == c.Text() + tail;
  }

  /** Counting `(` across one step of a pass: a head `m` replaced by `t`,
      the tail `tail` by `rest`. */
  lemma CountStep(m: string, tail: string, t: string, rest: string)
    requires Opens(t) <= Opens(m) && (Opens(t) == Opens(m) ==> t == m)
    requires Opens(rest) <= Opens(tail) && (Opens(rest) == Opens(tail) ==> rest == tail)
    ensures Opens(t + rest) <= Opens(m + tail)
    ensures Opens(t + rest) == Opens(m + tail) ==> t + rest == m + tail
  {
    OpensConcat(m, tail);
    OpensConcat(t, rest);
  }

  lemma OpensConcat(a: string, b: string)
    ensures Opens(a + b) == Opens(a) + Opens(b)
  {
    assert multiset(a + b) == multiset(a) + multiset(b);
  }

  /** `clrfuncs` as a function: passes until one changes nothing. */
  function EvalCalls(vars: Table, s: string): Res<string>
    decreases Opens(s)
  {
    match Pass(vars, s)
    case Ok(t) =>
      if t == s then Ok(s)
      else
        PassShrinks(vars, s);
        EvalCalls(vars, t)
    case Fatal(m) => Fatal(m)
    case Crash(c) => Crash(c)
    case Unmodelled(w) => Unmodelled(w)
  }

  /** What `clrfuncs` returns is a fixed point: one more pass changes nothing. */
  lemma {:induction false} EvalCallsIsFixpoint(vars: Table, s: string)
    requires EvalCalls(vars, s).Ok?
    ensures Pass(vars, EvalCalls(vars, s).value) == Ok(EvalCalls(vars, s).value)
    decreases Opens(s)
  {
    var t := Pass(vars, s).value;
    if t != s {
      PassShrinks(vars, s);
      EvalCallsIsFixpoint(vars, t);
    }
  }

  /** Text with no `$` holds no builtin call, and every match in it is
      left as it was. */
  lemma {:induction false} PassWithoutDollar(vars: Table, s: string)
    requires '$' !in s
    ensures Pass(vars, s) == Ok(s)
    decreases |s|
  {
    if s != [] {
      match MatchCall(s)
      case Some(c) =>
        MatchedText(s, c);
        var m := c.Text();
        var tail := s[|m|..];
        assert s == m + tail;
        assert c.name[|c.name| - 1] == s[|c.name| - 1];
        PassWithoutDollar(vars, tail);
        PassKeepsCall(vars, s, c, tail);
      case None =>
        PassWithoutDollar(vars, s[1..]);
        PassKeepsChar(vars, s);
    }
  }

  /** A pass keeps a call that is not a builtin when it keeps the rest. */
  lemma PassKeepsCall(vars: Table, s: string, c: Call, tail: string)
    requires s != [] && MatchCall(s) == Some(c) && s == c.Text() + tail
    requires !EndsWithDollar(c.name) && Pass(vars, tail) == Ok(tail)
    ensures Pass(vars, s) == Ok(s)
  {
    assert s[|c.Text()|..] == tail;
  }

  /** A pass keeps a character that starts no call when it keeps the rest. */
  lemma PassKeepsChar(vars: Table, s: string)
    requires s != [] && MatchCall(s).None? && Pass(vars, s[1..]) == Ok(s[1..])
    ensures Pass(vars, s) == Ok(s)
  {
    assert s == [s[0]] + s[1..];
  }

  /** The first call a pass meets, if its `$` name is unknown, stops the line with "Command not found". */
  lemma UnknownCommandIsFatal(vars: Table, s: string, c: Call)
    requires MatchCall(s) == Some(c) && EndsWithDollar(c.name) && Lookup(c.name).None?
    ensures Pass(vars, s) == Fatal("Command not found: " + c.name)
  {
  }

  /** `clrfuncs(data)`: remember the previous text (initially empty) and
      pass again while the text differs from it. */
  method ClearFuncs(vars: Table, data: string) returns (r: Res<string>)
    ensures r == EvalCalls(vars, data)
    ensures r.Ok? ==> Pass(vars, r.value) == Ok(r.value)
  {
    var prev := "";
    var cur := data;
    while prev != cur
      invariant EvalCalls(vars, cur) == EvalCalls(vars, data)
      invariant prev != cur || Pass(vars, cur) == Ok(cur) || cur == ""
      decreases Opens(cur), if prev == cur then 0 else 1
    {
      prev := cur;
      var next := Pass(vars, cur);
      if !next.Ok? {
        return next;
      }
      PassShrinks(vars, cur);
      cur := next.value;
    }
    r := Ok(cur);
    if cur != "" {
      EvalCallsIsFixpoint(vars, cur);
    }
  }

  /** One line as the interpreter rewrites it before dispatch. */
  function Rewrite(defines: Table, vars: Table, line: string): Res<string>
  {
    var t :- EvalCalls(vars, ExpandVariables(vars, ExpandDefines(defines, line)));
    Ok(Strip(t))
  }

  /** `clrfuncs(clrvars(clrdefines(line))).strip()` */
  method RewriteLine(defines: Table, vars: Table, line: string) returns (r: Res<string>)
    ensures r == Rewrite(defines, vars, line)
  {
    var a := ClearDefines(defines, line);
    var b := ClearVars(vars, a);
    var c := ClearFuncs(vars, b);
    if c.Ok? {
      r := Ok(Strip(c.value));
    } else {
      r := c;
    }
  }

  /** Without variables and without a `$` after define substitution, a
      line is only define-substituted and stripped. */
  lemma RewriteDefinesOnly(defines: Table, line: string)
    requires '$' !in ExpandDefines(defines, line)
    ensures Rewrite(defines, [], line) == Ok(Strip(ExpandDefines(defines, line)))
  {
    var d := ExpandDefines(defines, line);
    assert Sigiled([]) == [];
    assert ExpandVariables([], d) == d;
    PassWithoutDollar([], d);
  }

  lemma DefineOfSecondName(defines: Table)
    requires defines == [Entry("A", "B"), Entry("B", "x")]
    ensures ExpandDefines(defines, "B") == "x"
  {
    var pats := [Entry("A", "B"), Entry("B", "x")];
    assert !Contains("B", "A") by {
      assert !StartsWith("B", "A") && !StartsWith("", "A");
    }
    assert StartsWith("B", "B");
    assert Present(pats[1..], "B") == [Entry("B", "x")];
    assert Present(pats, "B") == [Entry("B", "x")];
    assert ReplaceAll("", "B", "x") == "";
    assert ReplaceAll("B", "B", "x") == "x";
  }

  /** A line whose define substitution gives `out`, with no `$` and no
      surrounding space, is rewritten to `out`. */
  lemma RewriteDefinesTo(defines: Table, line: string, out: string)
    requires ExpandDefines(defines, line) == out && '$' !in out
    requires |out| > 0 ==> !IsSpace(out[0]) && !IsSpace(out[|out| - 1])
    ensures Rewrite(defines, [], line) == Ok(out)
  {
    RewriteDefinesOnly(defines, line);
    StripTrimmed(out);
  }

  lemma RewriteFirstLine(defines: Table)
    requires defines == [Entry("A", "B"), Entry("B", "x")]
    ensures Rewrite(defines, [], "A") == Ok("B")
  {
    DefineIsNotRescanned(defines);
    RewriteDefinesTo(defines, "A", "B");
  }

  lemma RewriteSecondLine(defines: Table)
    requires defines == [Entry("A", "B"), Entry("B", "x")]
    ensures Rewrite(defines, [], "B") == Ok("x")
  {
    DefineOfSecondName(defines);
    RewriteDefinesTo(defines, "B", "x");
  }

  /** Rewriting is not idempotent, because defines are substituted in a
      single pass: with `A` defined as `B` and `B` as `x`, the line `A`
      becomes `B`, and `B` becomes `x`. */
  lemma RewriteNotIdempotent(defines: Table)
    requires defines == [Entry("A", "B"), Entry("B", "x")]
    ensures Rewrite(defines, [], "A") == Ok("B")
    ensures Rewrite(defines, [], "B") == Ok("x")
  {
    RewriteFirstLine(defines);
    RewriteSecondLine(defines);
  }
}
