/** The builtin functions a build script can call inline as `name$(args)`
    (the `commands` table of akbs/__main__.py). Each takes the list of
    comma-separated, stripped argument strings; `set$` and `notset$` also
    read the variable table. Results are turned into text with Python's
    `str()`, so a boolean becomes `"True"` or `"False"`. */
module Builtins {

  import opened Outcomes
  import opened Text
  import opened Tables

  datatype Builtin = Remove | Replace | Eq | Neq | IsSet | NotSet | And | Or | Not

  /** What a `$` name refers to: a builtin of this model, or one of the
      table's builtins that depend on the file system (`wildcard$`) or on
      floating point (`gt$`, `lt$`, `gte$`, `lte$`). */
  datatype Command = Pure(op: Builtin) | Outside(name: string)

  /** The `commands` table: `None` for a name it does not hold. */
  function Lookup(name: string): (r: Option<Command>)
    ensures r.Some? ==> |name| > 0 && name[|name| - 1] == '$'
  {
    match name
    case "remove$" => Some(Pure(Remove))
    case "replace$" => Some(Pure(Replace))
    case "eq$" => Some(Pure(Eq))
    case "neq$" => Some(Pure(Neq))
    case "set$" => Some(Pure(IsSet))
    case "notset$" => Some(Pure(NotSet))
    case "and$" => Some(Pure(And))
    case "or$" => Some(Pure(Or))
    case "not$" => Some(Pure(Not))
    case "wildcard$" => Some(Outside(name))
    case "gt$" => Some(Outside(name))
    case "lt$" => Some(Outside(name))
    case "gte$" => Some(Outside(name))
    case "lte$" => Some(Outside(name))
    case _ => None
  }

  /** `str(b)` for a boolean. */
  function Show(b: bool): string
  {
    if b then "True" else "False"
  }

  /** A value counts as true when its lower-case form is `true` or `on`. */
  predicate Truthy(x: string)
  {
    Lower(x) == "true" || Lower(x) == "on"
  }

  /** The truth test ignores case: `ON`, `On` and `on` are all true. */
  lemma TruthyIgnoresCase(x: string)
    ensures Truthy(Upper(x)) == Truthy(x)
    ensures Truthy(Lower(x)) == Truthy(x)
  {
    LowerIgnoresCase(x);
  }

  /** The items of `xs`, in order, that are not in `drop`. */
  function Without(xs: seq<string>, drop: seq<string>): (r: seq<string>)
    ensures |r| <= |xs|
    ensures forall x :: x in r <==> x in xs && x !in drop
    decreases |xs|
  {
    if |xs| == 0 then []
    else (if xs[0] in drop then [] else [xs[0]]) + Without(xs[1..], drop)
  }

  /** Filtering a concatenation filters each part in turn, so the kept
      items keep their order and their repetitions. */
  lemma {:induction false} WithoutConcat(a: seq<string>, b: seq<string>, drop: seq<string>)
    ensures Without(a + b, drop) == Without(a, drop) + Without(b, drop)
    decreases |a|
  {
    if a == [] {
      assert a + b == b;
    } else {
      var head := if a[0] in drop then [] else [a[0]];
      assert (a + b)[0] == a[0] && (a + b)[1..] == a[1..] + b;
      calc {
        Without(a + b, drop);
        head + Without(a[1..] + b, drop);
        { WithoutConcat(a[1..], b, drop); }
        head + (Without(a[1..], drop) + Without(b, drop));
        (head + Without(a[1..], drop)) + Without(b, drop);
      }
    }
  }

  /** One item is kept exactly when no later argument names it. */
  lemma WithoutSingle(x: string, drop: seq<string>)
    ensures Without([x], drop) == if x in drop then [] else [x]
  {
  }

  /** `all(Truthy(x) for x in xs)` */
  predicate AllTruthy(xs: seq<string>)
  {
    forall k :: 0 <= k < |xs| ==> Truthy(xs[k])
  }

  /** `any(Truthy(x) for x in xs)` */
  predicate AnyTruthy(xs: seq<string>)
  {
    exists k :: 0 <= k < |xs| && Truthy(xs[k])
  }

  /** One builtin applied to its argument list (never empty: it comes from
      `str.split`). Too few arguments for `replace$`, `eq$` or `neq$` is
      Python's `IndexError`, a crash; and a builtin's text never holds a `(`
      its arguments did not hold. */
  function Apply(b: Builtin, ags: seq<string>, vars: Table): (r: Res<string>)
    requires |ags| >= 1
    ensures r.Crash? <==> (b == Replace && |ags| < 3) || ((b == Eq || b == Neq) && |ags| < 2)
    ensures r.Ok? || r.Crash?
    ensures r.Ok? && (forall k :: 0 <= k < |ags| ==> '(' !in ags[k]) ==> '(' !in r.value
  {
    match b
    case Remove =>
      var items := Split(ags[0], " ");
      var kept := Without(items, ags[1..]);
      var out := Join(kept, " ");
      assert '(' !in ags[0] ==> '(' !in out by {
        if '(' !in ags[0] {
          SplitKeepsOut(ags[0], " ", '(');
          assert forall k :: 0 <= k < |kept| ==> kept[k] in items;
          JoinKeepsOut(kept, " ", '(');
        }
      }
      Ok(out)
    case Replace =>
      if |ags| < 3 then Crash("IndexError in replace$")
      else
        var out := ReplaceAll(ags[0], ags[1], ags[2]);
        assert '(' !in ags[0] && '(' !in ags[2] ==> '(' !in out by {
          if '(' !in ags[0] && '(' !in ags[2] { ReplaceKeepsOut(ags[0], ags[1], ags[2], '('); }
        }
        Ok(out)
    case Eq => if |ags| < 2 then Crash("IndexError in eq$") else Ok(Show(ags[0] == ags[1]))
    case Neq => if |ags| < 2 then Crash("IndexError in neq$") else Ok(Show(ags[0] != ags[1]))
    case IsSet => Ok(Show(HasKey(vars, ags[0])))
    case NotSet => Ok(Show(!HasKey(vars, ags[0])))
    case And => Ok(Show(AllTruthy(ags)))
    case Or => Ok(Show(AnyTruthy(ags)))
    case Not => Ok(Show(!Truthy(ags[0])))
  }

  /** `remove$` keeps exactly the space-separated items of its first
      argument that no later argument names, in their order: splitting its
      result on spaces gives those items back. */
  lemma RemoveKeepsOthers(ags: seq<string>, vars: Table)
    requires |ags| >= 1
    requires |Without(Split(ags[0], " "), ags[1..])| >= 1
    ensures Apply(Remove, ags, vars).Ok?
    ensures Split(Apply(Remove, ags, vars).value, " ") == Without(Split(ags[0], " "), ags[1..])
  {
    var items := Split(ags[0], " ");
    var kept := Without(items, ags[1..]);
    SplitPiecesFree(ags[0], ' ');
    assert forall k :: 0 <= k < |kept| ==> kept[k] in items;
    SplitJoin(kept, ' ');
  }

  /** Removing items the first argument does not hold gives it back unchanged. */
  lemma RemoveAbsent(ags: seq<string>, vars: Table)
    requires |ags| >= 1
    requires forall x :: x in Split(ags[0], " ") ==> x !in ags[1..]
    ensures Apply(Remove, ags, vars) == Ok(ags[0])
  {
    var items := Split(ags[0], " ");
    WithoutNothing(items, ags[1..]);
    JoinSplit(ags[0], " ");
  }

  lemma {:induction false} WithoutNothing(xs: seq<string>, drop: seq<string>)
    requires forall x :: x in xs ==> x !in drop
    ensures Without(xs, drop) == xs
    decreases |xs|
  {
    if |xs| > 0 {
      WithoutNothing(xs[1..], drop);
      assert [xs[0]] + xs[1..] == xs;
    }
  }

  /** `replace$(text, old, new)` is `new.join(text.split(old))` for a non-empty `old`. */
  lemma ReplaceSplitsAndJoins(ags: seq<string>, vars: Table)
    requires |ags| >= 3 && |ags[1]| > 0
    ensures Apply(Replace, ags, vars) == Ok(Join(Split(ags[0], ags[1]), ags[2]))
  {
    ReplaceViaSplit(ags[0], ags[1], ags[2]);
  }

  /** The text of a boolean result reads back as that boolean, so a nested
      `and$(eq$(a, b), set$(X))` combines the inner results correctly. */
  lemma ShowTruthy(b: bool)
    ensures Truthy(Show(b)) == b
  {
    if b {
      assert Lower("True") == "true";
    } else {
      assert Lower("False") == "false";
    }
  }

  /** `and$`, `or$` and `not$` over booleans shown as text compute conjunction, disjunction and negation. */
  lemma Connectives(a: bool, b: bool, vars: Table)
    ensures Apply(And, [Show(a), Show(b)], vars) == Ok(Show(a && b))
    ensures Apply(Or, [Show(a), Show(b)], vars) == Ok(Show(a || b))
    ensures Apply(Not, [Show(a)], vars) == Ok(Show(!a))
  {
    ShowTruthy(a);
    ShowTruthy(b);
    var xs := [Show(a), Show(b)];
    assert AllTruthy(xs) == (Truthy(xs[0]) && Truthy(xs[1]));
    assert AnyTruthy(xs) == (Truthy(xs[0]) || Truthy(xs[1]));
  }

  /** `notset$(X)` is `not$(set$(X))`, and `neq$(a, b)` is `not$(eq$(a, b))`. */
  lemma Complements(ags: seq<string>, vars: Table)
    requires |ags| >= 2
    ensures Apply(NotSet, ags, vars) == Apply(Not, [Apply(IsSet, ags, vars).value], vars)
    ensures Apply(Neq, ags, vars) == Apply(Not, [Apply(Eq, ags, vars).value], vars)
  {
    ShowTruthy(HasKey(vars, ags[0]));
    ShowTruthy(ags[0] == ags[1]);
  }
}
