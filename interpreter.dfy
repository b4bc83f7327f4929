/** The build-script interpreter: a program counter over the script's lines,
    each line rewritten in place and then dispatched on its prefix. The
    file system is a snapshot (modification times and the files present at
    the start) plus the files the run removes or compiles; running a shell
    command is the oracle `shell`, from the command line to its wait
    status. */
module Interp {

  import opened Outcomes
  import opened Text
  import opened Tables
  import opened Builtins
  import opened Rewriter
  import opened Directives
  import opened Toolchain
  import opened Build

  /** How a run ends: past the last line, through `exit N`, through the
      interpreter's `error()` (exit status 1, modification times saved), by
      an uncaught Python exception, or at a builtin this model leaves out. */
  datatype Ending = Finished | Exited(code: int) | Failed(message: string) | Crashed(reason: string) | Unsupported(what: string)

  /** Whether the interpreter goes on to the next line. */
  datatype Flow = Next | Stop(ending: Ending)

  /** The ending a failed result leads to. */
  function Stopped<T>(r: Res<T>): (e: Ending)
    requires !r.Ok?
    ensures e.Failed? <==> r.Fatal?
    ensures r.Fatal? ==> e == Failed(r.message)
    ensures r.Crash? ==> e == Crashed(r.reason)
    ensures !e.Finished? && !e.Exited?
  {
    if r.Fatal? then Failed(r.message)
    else if r.Crash? then Crashed(r.reason)
    else Unsupported(r.what)
  }

  lemma StoppedPropagates<T, U>(r: Res<T>)
    requires !r.Ok?
    ensures Stopped(r.PropagateFailure<U>()) == Stopped(r)
  {
  }

  // ---------------------------------------------------------------- if

  /** How a line moves the nesting depth while a false `if` is skipped:
      up for a line that starts with `if`, down for one that starts with
      `endif`. */
  function DepthChange(line: string): int
  {
    if StartsWith(line, "if") then 1 else if StartsWith(line, "endif") then -1 else 0
  }

  /** The depth at line `m` when the skip starts at line `j` with depth
      `d`; lines are read after define expansion only. */
  function DepthAt(defines: Table, lines: seq<string>, j: nat, m: nat, d: int): int
    requires j <= m <= |lines|
    decreases m - j
  {
    if j == m then d
    else DepthAt(defines, lines, j + 1, m, d + DepthChange(ExpandDefines(defines, lines[j])))
  }

  /** Line `m` closes the skipped block: it reads exactly `endif` and the
      depth there is 0. */
  predicate Closes(defines: Table, lines: seq<string>, j: nat, m: nat, d: int)
    requires j <= m < |lines|
  {
    ExpandDefines(defines, lines[m]) == "endif" && DepthAt(defines, lines, j, m, d) == 0
  }

  /** Where the skip loop stops, from line `j` at depth `d`; `None` when it
      runs past the last line (an `IndexError`). */
  function MatchingEndif(defines: Table, lines: seq<string>, j: nat, d: int): (r: Option<nat>)
    ensures r.Some? ==> j <= r.value < |lines| && ExpandDefines(defines, lines[r.value]) == "endif"
    decreases |lines| - j
  {
    if j >= |lines| then None
    else
      var l := ExpandDefines(defines, lines[j]);
      if l == "endif" && d == 0 then Some(j)
      else MatchingEndif(defines, lines, j + 1, d + DepthChange(l))
  }

  lemma MatchingEndifUnfold(defines: Table, lines: seq<string>, j: nat, d: int)
    requires j < |lines|
    ensures MatchingEndif(defines, lines, j, d) ==
      var l := ExpandDefines(defines, lines[j]);
      if l == "endif" && d == 0 then Some(j) else MatchingEndif(defines, lines, j + 1, d + DepthChange(l))
  {
  }

  lemma DepthAtStep(defines: Table, lines: seq<string>, j: nat, m: nat, d: int)
    requires j < m <= |lines|
    ensures DepthAt(defines, lines, j, m, d)
         == DepthAt(defines, lines, j + 1, m, d + DepthChange(ExpandDefines(defines, lines[j])))
  {
  }

  /** The skip stops at the first line that closes the block, and runs off
      the end exactly when no line does. */
  lemma {:induction false} MatchingEndifIsFirstClosing(defines: Table, lines: seq<string>, j: nat, d: int)
    requires j <= |lines|
    ensures MatchingEndif(defines, lines, j, d).Some? ==>
      var k := MatchingEndif(defines, lines, j, d).value;
      Closes(defines, lines, j, k, d) && forall m :: j <= m < k ==> !Closes(defines, lines, j, m, d)
    ensures MatchingEndif(defines, lines, j, d).None? <==>
      forall m :: j <= m < |lines| ==> !Closes(defines, lines, j, m, d)
    decreases |lines| - j
  {
    if j < |lines| {
      var l := ExpandDefines(defines, lines[j]);
      if l == "endif" && d == 0 {
        assert Closes(defines, lines, j, j, d);
      } else {
        var d' := d + DepthChange(l);
        assert MatchingEndif(defines, lines, j, d) == MatchingEndif(defines, lines, j + 1, d');
        MatchingEndifIsFirstClosing(defines, lines, j + 1, d');
        assert !Closes(defines, lines, j, j, d);
        ClosesStep(defines, lines, j, d);
      }
    }
  }

  /** Past the first skipped line, closing is judged from the next line
      with the depth that line leaves. */
  lemma ClosesStep(defines: Table, lines: seq<string>, j: nat, d: int)
    requires j < |lines|
    ensures forall m :: j + 1 <= m < |lines| ==>
      (Closes(defines, lines, j, m, d) <==>
       Closes(defines, lines, j + 1, m, d + DepthChange(ExpandDefines(defines, lines[j]))))
  {
    forall m | j + 1 <= m < |lines|
      ensures Closes(defines, lines, j, m, d) <==>
              Closes(defines, lines, j + 1, m, d + DepthChange(ExpandDefines(defines, lines[j])))
    {
      DepthAtStep(defines, lines, j, m, d);
    }
  }

  /** A nested `if` inside a skipped block is skipped with it: from the
      line after `if(false)`, the skip stops at the outer `endif`. */
  lemma NestedBlockIsSkipped(lines: seq<string>)
    requires lines == ["if(false)", "if(true)", "x", "endif", "endif", "y"]
    ensures MatchingEndif([], lines, 1, 0) == Some(4)
  {
    forall l ensures ExpandDefines([], l) == l {
      NoDefines(l);
    }
    assert StartsWith("if(true)", "if");
    assert !StartsWith("x", "if") && !StartsWith("x", "endif");
    assert "endif"[0] != "if"[0];
    assert StartsWith("endif", "endif");
    assert MatchingEndif([], lines, 4, 0) == Some(4);
    assert MatchingEndif([], lines, 3, 1) == MatchingEndif([], lines, 4, 0);
    assert MatchingEndif([], lines, 2, 1) == MatchingEndif([], lines, 3, 1);
    assert MatchingEndif([], lines, 1, 0) == MatchingEndif([], lines, 2, 1);
  }

  lemma NoDefines(l: string)
    ensures ExpandDefines([], l) == l
  {
    assert Present([], l) == [];
  }

  // ----------------------------------------------------------- check_for

  /** The effect of `look_for(language_to_compiler[x], x)` for each listed
      language in turn: a language already chosen is kept, otherwise the
      first qualifying candidate is recorded. */
  function CheckAll(vars: Table, langs: seq<string>, shell: string -> int): (r: Res<Table>)
    ensures r.Ok? ==> forall l :: l in langs ==> HasKey(r.value, CompilerKey(l))
    ensures r.Ok? ==> forall k :: HasKey(vars, k) ==> HasKey(r.value, k)
    ensures r.Ok? ==> forall k :: HasKey(vars, k) && !(exists l :: l in langs && k == CompilerKey(l))
                               ==> Get(r.value, k) == Get(vars, k)
    decreases |langs|
  {
    if |langs| == 0 then Ok(vars)
    else
      var next :- CheckOne(vars, langs[0], shell);
      var r := CheckAll(next, langs[1..], shell);
      assert forall l :: l in langs ==> l == langs[0] || l in langs[1..];
      r
  }

  /** One language of `check_for`: its candidate list (a `KeyError` for an
      unknown language), then `look_for` with the cache allowed. */
  function CheckOne(vars: Table, lang: string, shell: string -> int): (r: Res<Table>)
    ensures r.Ok? ==> HasKey(r.value, CompilerKey(lang))
    ensures r.Ok? ==> forall k :: HasKey(vars, k) ==> HasKey(r.value, k)
    ensures r.Ok? ==> forall k :: k != CompilerKey(lang) ==> Get(r.value, k) == Get(vars, k)
    ensures lang !in Languages ==> r == Crash("KeyError in check_for")
    ensures lang in Languages && HasKey(vars, CompilerKey(lang)) ==> r == Ok(vars)
    ensures lang in Languages && !HasKey(vars, CompilerKey(lang)) ==>
      var found := Probe(Candidates(lang).value, 0, lang, Get(vars, StdKey(lang)), shell);
      (r.Ok? <==> found.Ok?) && (r.Ok? ==> r.value == Put(vars, CompilerKey(lang), found.value)) &&
      (!r.Ok? ==> r == found.PropagateFailure())
  {
    match Candidates(lang)
    case None => Crash("KeyError in check_for")
    case Some(cands) => Choose(vars, cands, lang, shell)
  }

  /** One `look_for(candidates, lang)` with the cache allowed. */
  function Choose(vars: Table, cands: seq<string>, lang: string, shell: string -> int): (r: Res<Table>)
    ensures r.Ok? ==> HasKey(r.value, CompilerKey(lang))
    ensures r.Ok? ==> forall k :: HasKey(vars, k) ==> HasKey(r.value, k)
    ensures r.Ok? ==> forall k :: k != CompilerKey(lang) ==> Get(r.value, k) == Get(vars, k)
    ensures HasKey(vars, CompilerKey(lang)) ==> r == Ok(vars)
    ensures !HasKey(vars, CompilerKey(lang)) ==>
      var found := Probe(cands, 0, lang, Get(vars, StdKey(lang)), shell);
      (r.Ok? <==> found.Ok?) && (r.Ok? ==> r.value == Put(vars, CompilerKey(lang), found.value)) &&
      (!r.Ok? ==> r == found.PropagateFailure())
  {
    var key := CompilerKey(lang);
    if HasKey(vars, key) then Ok(vars)
    else
      var c :- Probe(cands, 0, lang, Get(vars, StdKey(lang)), shell);
      var r := Put(vars, key, c);
      assert forall k :: HasKey(vars, k) ==> HasKey(r, k) by {
        forall k | HasKey(vars, k) ensures HasKey(r, k) {
          if k != key { assert Get(r, k) == Get(vars, k); }
        }
      }
      Ok(r)
  }

  // -------------------------------------------------------------- startup

  /** The variables a run starts with: `PLATFORM`, then the loaded compiler
      cache, then (unless disabled) the environment. */
  function InitialVariables(platform: string, caches: Table, environ: Table, useEnviron: bool): (r: Table)
    ensures HasKey(r, "PLATFORM")
  {
    var base := Update([Entry("PLATFORM", platform)], caches);
    if useEnviron then Update(base, environ) else base
  }

  /** A compiler saved by one run is the cached choice of the next, unless
      the environment of the next run sets the same variable. */
  lemma SavedCompilerIsReloaded(vars: Table, platform: string, environ: Table, useEnviron: bool, lang: string)
    requires lang in Languages
    requires HasKey(vars, CompilerKey(lang)) && Get(vars, CompilerKey(lang)).value != ""
    requires !(useEnviron && HasKey(environ, CompilerKey(lang)))
    ensures Get(InitialVariables(platform, Persisted(vars), environ, useEnviron), CompilerKey(lang))
         == Get(vars, CompilerKey(lang))
  {
    var key := CompilerKey(lang);
    var e := Entry(key, Get(vars, key).value);
    PersistedExactly(vars, e);
    PersistedDistinct(vars);
    var saved := Persisted(vars);
    assert HasKey(saved, key) by {
      var i :| 0 <= i < |saved| && saved[i] == e;
    }
    assert Get(saved, key) == Some(e.value) by {
      var i := IndexOf(saved, key);
      var j :| 0 <= j < |saved| && saved[j] == e;
      assert i == j;
    }
    UpdateGet([Entry("PLATFORM", platform)], saved, key);
  }

  // ------------------------------------------------------------ the caches

  /** The modification-time cache written when the run ends: by `error()`
      and by a normal end outside clean mode, and never with caching off,
      after `exit`, or after an uncaught exception. */
  function SavedHashes(e: Ending, clean: bool, noCache: bool, hashes: map<string, int>): (r: Option<map<string, int>>)
    ensures r.Some? <==> !noCache && (e.Failed? || (e.Finished? && !clean))
    ensures r.Some? ==> r.value == hashes
  {
    if noCache then None
    else match e
      case Failed(_) => Some(hashes)
      case Finished => if clean then None else Some(hashes)
      case _ => None
  }

  /** The compiler cache written when the run ends: only after a normal
      end outside clean mode with caching on. */
  function SavedCompilers(e: Ending, clean: bool, noCache: bool, vars: Table): (r: Option<Table>)
    ensures r.Some? <==> e.Finished? && !clean && !noCache
    ensures r.Some? ==> r.value == Persisted(vars)
  {
    if e.Finished? && !clean && !noCache then Some(Persisted(vars)) else None
  }

  /** The standard variable a compile command consults is never the
      compiler variable, so recording a compiler leaves it alone. */
  lemma StdKeyIsNotCompilerKey(ext: string, lang: string)
    requires Language(ext) == Some(lang)
    ensures StdKey(StdLanguage(ext)) != CompilerKey(lang)
  {
    assert |StdKey(StdLanguage(ext))| != |CompilerKey(lang)|;
  }

  /** Every listed source has its current modification time recorded. */
  predicate AllRecorded(files: seq<string>, hashes: map<string, int>, mtime: map<string, int>)
  {
    forall x :: x in files ==> x in mtime && x in hashes && hashes[x] == mtime[x]
  }

  /** Recording one more source, or finding its time already recorded,
      extends `AllRecorded` by that source. */
  lemma RecordOneMore(files: seq<string>, k: nat, before: map<string, int>, after: map<string, int>,
                      mtime: map<string, int>)
    requires k < |files| && AllRecorded(files[..k], before, mtime) && files[k] in mtime
    requires after == before[files[k] := mtime[files[k]]] ||
             (after == before && files[k] in before && before[files[k]] == mtime[files[k]])
    ensures AllRecorded(files[..k + 1], after, mtime)
  {
    TakeOneMore(files, k);
  }

  /** A `_COMPILER` variable, the only kind a compile may set again. */
  predicate IsCompilerKey(k: string)
  {
    |k| >= 9 && k[|k| - 9..] == "_COMPILER"
  }

  lemma CompilerKeyIsCompilerKey(lang: string)
    ensures IsCompilerKey(CompilerKey(lang))
  {
    assert CompilerKey(lang)[|lang|..] == "_COMPILER";
  }

  /** `after` differs from `before` in `_COMPILER` variables at most. */
  ghost predicate CompilersOnly(before: Table, after: Table)
  {
    forall k :: !IsCompilerKey(k) ==> Get(after, k) == Get(before, k)
  }

  /** Setting one compiler again, after changes to compilers only, is
      still a change to compilers only. */
  lemma CompilersOnlyStep(before: Table, mid: Table, after: Table, lang: string)
    requires CompilersOnly(before, mid)
    requires forall k :: k != CompilerKey(lang) ==> Get(after, k) == Get(mid, k)
    ensures CompilersOnly(before, after)
  {
    CompilerKeyIsCompilerKey(lang);
  }

  /** Changing compilers only keeps the build directory, the output and
      its directory, and so the name of every object. */
  lemma CompilersOnlyKeepsLayout(before: Table, after: Table)
    requires CompilersOnly(before, after)
    ensures Get(after, "BUILD_DIR") == Get(before, "BUILD_DIR")
    ensures Get(after, "OUTPUT") == Get(before, "OUTPUT")
    ensures Get(after, "OUTPUT_DIR") == Get(before, "OUTPUT_DIR")
    ensures forall file :: CompiledObject(after, file) == CompiledObject(before, file)
  {
    assert "BUILD_DIR"[0..] != "_COMPILER";
    assert "OUTPUT_DIR"[1..] != "_COMPILER";
  }

  /** Every listed source has its object, named from `vars`, in `onDisk`. */
  ghost predicate AllBuilt(files: seq<string>, vars: Table, onDisk: set<string>)
  {
    forall x :: x in files ==> CompiledObject(vars, x) in onDisk
  }

  /** One more source whose object exists extends `AllBuilt` by it, as
      long as no file went away. */
  lemma BuiltOneMore(files: seq<string>, k: nat, vars: Table, before: set<string>, after: set<string>)
    requires k < |files| && AllBuilt(files[..k], vars, before)
    requires before <= after && CompiledObject(vars, files[k]) in after
    ensures AllBuilt(files[..k + 1], vars, after)
  {
    TakeOneMore(files, k);
  }

  /** The listed paths that are present. */
  function Existing(paths: seq<string>, present: set<string>): (r: set<string>)
    ensures forall p :: p in r <==> p in paths && p in present
  {
    set p | p in paths && p in present
  }

  /** `check_for(...)` outside clean mode: the listed languages, each
      looked for in turn. */
  function CheckForEffect(vars: Table, line: string, shell: string -> int): Res<Table>
  {
    var langs :- CheckForLanguages(line);
    CheckAll(vars, langs, shell)
  }

  /** The interpreter's state: the script's lines (each rewritten in place
      when reached), the program counter, the define, variable and
      modification-time tables, and what the run has done outside. */
  class Interpreter {
    var lines: seq<string>
    var pc: nat
    var defines: Table
    var variables: Table
    var hashTable: map<string, int>
    /** The command lines handed to `os.system`, in order. */
    var ran: seq<string>
    /** The files clean mode has deleted. */
    var removed: set<string>
    /** The object files written by compile commands that succeeded. */
    var made: set<string>
    /** The compiler cache loaded at the start. */
    const compCaches: Table
    const clean: bool
    const noCache: bool
    /** Each source's current modification time. */
    const mtime: map<string, int>
    /** The files present at the start. */
    const initialFiles: set<string>
    const shell: string -> int

    ghost predicate Valid()
      reads this
    {
      pc <= |lines| && Distinct(defines) && Distinct(variables)
    }

    /** The files present now. */
    function OnDisk(): set<string>
      reads this
    {
      (initialFiles - removed) + made
    }

    /** The state after loading: the script split into lines, no defines,
        nothing run yet. */
    constructor(script: string, vars: Table, caches: Table, hashes: map<string, int>, clean: bool,
                noCache: bool, mtime: map<string, int>, files: set<string>, shell: string -> int)
      requires Distinct(vars)
      ensures Valid()
      ensures lines == Split(script, "\n") && pc == 0 && defines == [] && variables == vars
      ensures hashTable == hashes && ran == [] && removed == {} && made == {}
      ensures compCaches == caches && this.clean == clean && this.noCache == noCache
      ensures this.mtime == mtime && initialFiles == files && this.shell == shell
    {
      lines := Split(script, "\n");
      pc := 0;
      defines := [];
      variables := vars;
      hashTable := hashes;
      ran := [];
      removed := {};
      made := {};
      compCaches := caches;
      this.clean := clean;
      this.noCache := noCache;
      this.mtime := mtime;
      initialFiles := files;
      this.shell := shell;
    }

    /** `look_for(cands, lang, useCached)`. With the cache allowed and a
        compiler already recorded nothing is probed; otherwise the outcome
        is `Probe`'s, and a chosen candidate is recorded at the position the
        variable already had. No other variable changes. */
    method LookFor(cands: seq<string>, lang: string, useCached: bool) returns (r: Res<string>)
      requires Distinct(variables)
      modifies this`variables
      ensures Distinct(variables)
      ensures useCached && HasKey(old(variables), CompilerKey(lang)) ==>
        r == Ok(Get(old(variables), CompilerKey(lang)).value) && variables == old(variables)
      ensures !(useCached && HasKey(old(variables), CompilerKey(lang))) ==>
        r == Probe(cands, 0, lang, Get(old(variables), StdKey(lang)), shell)
      ensures !(useCached && HasKey(old(variables), CompilerKey(lang))) && r.Ok? ==>
        variables == Put(old(variables), CompilerKey(lang), r.value)
      ensures forall k :: k != CompilerKey(lang) ==> Get(variables, k) == Get(old(variables), k)
      ensures forall k :: HasKey(old(variables), k) ==> HasKey(variables, k)
    {
      var key := CompilerKey(lang);
      if useCached && HasKey(variables, key) {
        return Ok(Get(variables, key).value);
      }
      ghost var last;
      r, last := Search(cands, lang);
    }

    /** The loop of `look_for` over the candidates, each tried in turn by
        `TryCandidate`; running out of candidates is `error(...)`. */
    method Search(cands: seq<string>, lang: string) returns (r: Res<string>, ghost last: Option<string>)
      requires Distinct(variables)
      modifies this`variables
      ensures Distinct(variables)
      ensures r == Probe(cands, 0, lang, Get(old(variables), StdKey(lang)), shell)
      ensures r.Ok? ==> variables == Put(old(variables), CompilerKey(lang), r.value)
      ensures variables == if last.None? then old(variables) else Put(old(variables), CompilerKey(lang), last.value)
    {
      var key := CompilerKey(lang);
      ghost var start := variables;
      ghost var std := Get(start, StdKey(lang));
      ghost var outcome := Probe(cands, 0, lang, std, shell);
      KeysDiffer(lang);
      last := None;
      var k := 0;
      while k < |cands|
        invariant k <= |cands|
        invariant variables == if last.None? then start else Put(start, key, last.value)
        invariant Distinct(variables)
        invariant Get(variables, StdKey(lang)) == std
        invariant Probe(cands, k, lang, std, shell) == outcome
      {
        var tried := TryCandidate(cands, k, lang, std);
        if shell(VersionCommand(cands[k])) == 0 {
          if last.Some? { PutPut(start, key, last.value, cands[k]); }
          last := Some(cands[k]);
        }
        if tried.Some? {
          return tried.value, last;
        }
        k := k + 1;
      }
      return Fatal("Could not find any of " + Join(cands, ", ")), last;
    }

    /** One candidate of `look_for`'s loop: when it launches it is
        recorded as the compiler; the search ends here (`Some`) with
        `Probe`'s outcome from this candidate on, or moves on (`None`)
        exactly as `Probe` does. */
    method TryCandidate(cands: seq<string>, k: nat, lang: string, ghost std: Option<string>) returns (r: Option<Res<string>>)
      requires k < |cands| && Distinct(variables) && Get(variables, StdKey(lang)) == std
      modifies this`variables
      ensures Distinct(variables)
      ensures shell(VersionCommand(cands[k])) != 0 ==> variables == old(variables)
      ensures shell(VersionCommand(cands[k])) == 0 ==> variables == Put(old(variables), CompilerKey(lang), cands[k])
      ensures forall x :: x != CompilerKey(lang) ==> Get(variables, x) == Get(old(variables), x)
      ensures forall x :: HasKey(old(variables), x) ==> HasKey(variables, x)
      ensures Get(variables, StdKey(lang)) == std
      ensures r.Some? ==> shell(VersionCommand(cands[k])) == 0
      ensures r.Some? && r.value.Ok? ==> r.value.value == cands[k]
      ensures r.Some? ==> r.value == Probe(cands, k, lang, std, shell)
      ensures r.None? ==> Probe(cands, k, lang, std, shell) == Probe(cands, k + 1, lang, std, shell)
    {
      var c := cands[k];
      var key := CompilerKey(lang);
      var std := Get(variables, StdKey(lang));
      if shell(VersionCommand(c)) != 0 {
        return None;
      }
      KeysDiffer(lang);
      PutDistinct(variables, key, c);
      variables := Put(variables, key, c);
      if HasKey(variables, StdKey(lang)) {
        if TestCode(lang).None? {
          return Some(Crash("KeyError in look_for"));
        }
        if shell(StdCommand(c, lang, Get(variables, StdKey(lang)).value)) == 0 {
          PutPut(old(variables), key, c, c);
          variables := Put(variables, key, c);
          return Some(Ok(c));
        }
        return None;
      }
      return Some(Ok(c));
    }

    /** The skip of a false `if`: the counter moves to the line that closes
        the block. Only the counter changes, so no skipped line is rewritten
        or run. `false` is the `IndexError` of running off the end. */
    method SkipBlock() returns (found: bool)
      requires pc < |lines|
      modifies this`pc
      ensures found == MatchingEndif(defines, lines, old(pc) + 1, 0).Some?
      ensures found ==> pc == MatchingEndif(defines, lines, old(pc) + 1, 0).value
      ensures !found ==> pc == |lines|
    {
      var depth := 0;
      var ls, ds := lines, defines;
      ghost var target := MatchingEndif(ds, ls, pc + 1, 0);
      pc := pc + 1;
      while pc < |ls|
        invariant pc <= |ls|
        invariant MatchingEndif(ds, ls, pc, depth) == target
        decreases |ls| - pc
      {
        var l := ClearDefines(ds, ls[pc]);
        MatchingEndifUnfold(ds, ls, pc, depth);
        if l == "endif" && depth == 0 {
          return true;
        }
        ghost var next := depth + DepthChange(l);
        if StartsWith(l, "if") {
          depth := depth + 1;
        } else if StartsWith(l, "endif") {
          depth := depth - 1;
        }
        assert depth == next;
        pc := pc + 1;
      }
      return false;
    }

    /** `%define NAME VALUE` */
    method DoDefine(line: string) returns (f: Flow)
      requires Distinct(defines)
      modifies this`defines
      ensures f.Stop? ==> !f.ending.Finished?
      ensures Distinct(defines)
      ensures forall k :: HasKey(old(defines), k) ==> HasKey(defines, k)
      ensures var p := DefineParts(line);
        (p.Ok? ==> f == Next && defines == Put(old(defines), p.value.0, p.value.1)) &&
        (!p.Ok? ==> f == Stop(Stopped(p)) && defines == old(defines))
    {
      var p := DefineParts(line);
      if !p.Ok? {
        return Stop(Stopped(p));
      }
      PutDistinct(defines, p.value.0, p.value.1);
      defines := Put(defines, p.value.0, p.value.1);
      return Next;
    }

    /** `set(K, V)` */
    method DoSet(line: string) returns (f: Flow)
      requires Distinct(variables)
      modifies this`variables
      ensures f.Stop? ==> !f.ending.Finished?
      ensures Distinct(variables)
      ensures forall k :: HasKey(old(variables), k) ==> HasKey(variables, k)
      ensures var p := SetParts(line);
        (p.Ok? ==> f == Next && variables == Put(old(variables), p.value.0, p.value.1)) &&
        (!p.Ok? ==> f == Stop(Stopped(p)) && variables == old(variables))
    {
      var p := SetParts(line);
      if !p.Ok? {
        return Stop(Stopped(p));
      }
      PutDistinct(variables, p.value.0, p.value.1);
      variables := Put(variables, p.value.0, p.value.1);
      return Next;
    }

    /** `if(COND)`: a true condition goes on with the next line; a false
        one moves the counter to the `endif` that closes the block. */
    method DoIf(line: string) returns (f: Flow)
      requires pc < |lines|
      modifies this`pc
      ensures old(pc) <= pc <= |lines| && (f.Next? ==> pc < |lines|)
      ensures f.Stop? ==> !f.ending.Finished?
      ensures var c := IfCondition(line);
        (!c.Ok? ==> f == Stop(Stopped(c)) && pc == old(pc)) &&
        (c.Ok? && Truthy(c.value) ==> f == Next && pc == old(pc)) &&
        (c.Ok? && !Truthy(c.value) ==>
          var target := MatchingEndif(defines, lines, old(pc) + 1, 0);
          (target.Some? ==> f == Next && pc == target.value) &&
          (target.None? ==> f == Stop(Crashed("IndexError in if"))))
    {
      var c := IfCondition(line);
      if !c.Ok? {
        return Stop(Stopped(c));
      }
      if Truthy(c.value) {
        return Next;
      }
      var found := SkipBlock();
      if !found {
        return Stop(Crashed("IndexError in if"));
      }
      return Next;
    }

    /** `check_for(L1, ...)`: nothing in clean mode; otherwise each
        language looked for in turn, with the cache allowed. */
    method DoCheckFor(line: string) returns (f: Flow)
      requires Distinct(variables)
      modifies this`variables
      ensures f.Stop? ==> !f.ending.Finished?
      ensures Distinct(variables)
      ensures forall k :: HasKey(old(variables), k) ==> HasKey(variables, k)
      ensures clean ==> f == Next && variables == old(variables)
      ensures !clean ==> var eff := CheckForEffect(old(variables), line, shell);
        (eff.Ok? ==> f == Next && variables == eff.value) && (!eff.Ok? ==> f == Stop(Stopped(eff)))
    {
      if clean {
        return Next;
      }
      var langs := CheckForLanguages(line);
      if !langs.Ok? {
        StoppedPropagates<seq<string>, Table>(langs);
        return Stop(Stopped(langs));
      }
      var k := 0;
      while k < |langs.value|
        invariant k <= |langs.value|
        invariant Distinct(variables)
        invariant forall x :: HasKey(old(variables), x) ==> HasKey(variables, x)
        invariant CheckAll(variables, langs.value[k..], shell) == CheckForEffect(old(variables), line, shell)
      {
        assert langs.value[k..][1..] == langs.value[k + 1..];
        ghost var before := variables;
        var r := CheckLanguage(langs.value[k]);
        if !r.Ok? {
          StoppedPropagates<Table, Table>(CheckOne(before, langs.value[k], shell));
          return Stop(Stopped(r));
        }
        k := k + 1;
      }
      return Next;
    }

    /** One language of `check_for` carried out: the variables become
        `CheckOne`'s table, or the run stops with its failure. */
    method CheckLanguage(lang: string) returns (r: Res<()>)
      requires Distinct(variables)
      modifies this`variables
      ensures Distinct(variables)
      ensures forall x :: HasKey(old(variables), x) ==> HasKey(variables, x)
      ensures r.Ok? <==> CheckOne(old(variables), lang, shell).Ok?
      ensures r.Ok? ==> variables == CheckOne(old(variables), lang, shell).value
      ensures !r.Ok? ==> Stopped(r) == Stopped(CheckOne(old(variables), lang, shell))
    {
      var cands := Candidates(lang);
      if cands.None? {
        return Crash("KeyError in check_for");
      }
      var found := LookFor(cands.value, lang, true);
      if !found.Ok? {
        StoppedPropagates<string, Table>(found);
        StoppedPropagates<string, ()>(found);
        return found.PropagateFailure();
      }
      return Ok(());
    }

    /** Deletes each listed file that exists. */
    method RemoveExisting(paths: seq<string>)
      modifies this`removed
      ensures removed == old(removed) + Existing(paths, old(OnDisk()))
    {
      var k := 0;
      while k < |paths|
        invariant k <= |paths|
        invariant removed == old(removed) + (set p | p in paths[..k] && p in old(OnDisk()))
      {
        assert paths[..k + 1] == paths[..k] + [paths[k]];
        if paths[k] in OnDisk() {
          removed := removed + {paths[k]};
        }
        k := k + 1;
      }
      assert paths[..k] == paths;
    }

    /** `exec()`: the compile command for the current variables, run once.
        A missing compiler variable is a crash before anything runs. */
    method Exec(file: string, lang: string) returns (r: Res<int>)
      requires Language(Ext(file)) == Some(lang)
      modifies this`ran
      ensures var cmd := CompileCommand(variables, file, lang);
        (cmd.Ok? ==> r == Ok(shell(cmd.value)) && ran == old(ran) + [cmd.value]) &&
        (!cmd.Ok? ==> r == Crash(cmd.reason) && ran == old(ran))
    {
      var cmd := CompileCommand(variables, file, lang);
      if !cmd.Ok? {
        return Crash(cmd.reason);
      }
      ran := ran + [cmd.value];
      return Ok(shell(cmd.value));
    }

    /** The compile commands run from position `n` on have a final status:
        either there is a second one, or the first one was not a
        `command not found` (status `0x7F00`) for a cached compiler. */
    predicate Settled(n: nat, lang: string)
      reads this
    {
      |ran| > n &&
      (|ran| == n + 2 || shell(ran[n]) != 0x7F00 || !HasKey(compCaches, CompilerKey(lang)))
    }

    /** The compile commands run for `file` in language `lang` from the
        variables `vars`, with `n` commands run before them. The first
        command is the one `vars` give; none runs when `vars` give none. A
        second command runs only after `command not found` for a cached
        compiler and a fresh `look_for` that succeeded. */
    ghost predicate Commands(n: nat, vars: Table, file: string, lang: string)
      requires Language(Ext(file)) == Some(lang)
      reads this
    {
      var cmd := CompileCommand(vars, file, lang);
      var again := Probe(Candidates(lang).value, 0, lang, Get(vars, StdKey(lang)), shell);
      n <= |ran| <= n + 2 &&
      (!cmd.Ok? ==> |ran| == n) &&
      (cmd.Ok? ==> |ran| > n && ran[n] == cmd.value) &&
      (|ran| == n + 2 ==> shell(ran[n]) == 0x7F00 && HasKey(compCaches, CompilerKey(lang)) && again.Ok?)
    }

    /** How the compile commands from position `n` on end: a missing
        compiler variable is a crash before anything runs, and a failed
        fresh `look_for` is its own failure. */
    ghost predicate Aborted<T>(n: nat, vars: Table, file: string, lang: string, r: Res<T>)
      requires Language(Ext(file)) == Some(lang)
      reads this
    {
      var cmd := CompileCommand(vars, file, lang);
      var again := Probe(Candidates(lang).value, 0, lang, Get(vars, StdKey(lang)), shell);
      (!cmd.Ok? ==> r == Crash(cmd.reason)) &&
      (|ran| == n + 1 && shell(ran[n]) == 0x7F00 && HasKey(compCaches, CompilerKey(lang)) ==>
         !again.Ok? && r == again.PropagateFailure())
    }

    /** What compiling `file` in language `lang` from the variables `vars`
        left behind, with `n` commands run before it: the `Commands` and
        their failures as `Aborted` states; a success needs a final status
        of 0, and a final status other than 0 is
        `error("Compilation failed")`. */
    ghost predicate Attempted<T>(n: nat, vars: Table, file: string, lang: string, r: Res<T>)
      requires Language(Ext(file)) == Some(lang)
      reads this
    {
      Commands(n, vars, file, lang) && Aborted(n, vars, file, lang, r) &&
      (r.Ok? ==> Settled(n, lang) && shell(ran[|ran| - 1]) == 0) &&
      (Settled(n, lang) && shell(ran[|ran| - 1]) != 0 ==> r == Fatal("Compilation failed"))
    }

    /** What compiling from the variables `vars`, with `n` commands run
        before it, did to the variables: only the compiler variable of
        `lang` can change, and after a second command it holds the fresh
        `look_for`'s choice. */
    ghost predicate Rebound(n: nat, vars: Table, file: string, lang: string)
      requires Language(Ext(file)) == Some(lang)
      reads this
    {
      var again := Probe(Candidates(lang).value, 0, lang, Get(vars, StdKey(lang)), shell);
      (forall k :: k != CompilerKey(lang) ==> Get(variables, k) == Get(vars, k)) &&
      (|ran| == n + 2 ==> again.Ok? && variables == Put(vars, CompilerKey(lang), again.value))
    }

    /** What compiling a source that is not up to date left behind: an
        unknown extension is a `KeyError` before anything runs; otherwise
        the compile is `Attempted`, and after a final status of 0 the run
        goes on exactly when the source's modification time can be
        recorded. */
    ghost predicate StaleCompiled(n: nat, vars: Table, file: string, r: Res<bool>)
      reads this
    {
      match Language(Ext(file))
      case None => r == Crash("KeyError in compile") && |ran| == n
      case Some(lang) =>
        Attempted(n, vars, file, lang, r) && Rebound(n, vars, file, lang) &&
        (Settled(n, lang) && shell(ran[|ran| - 1]) == 0 ==> (r.Ok? <==> noCache || file in mtime))
    }

    /** Compiling a source that is not up to date: `exec()`; once more,
        after the compiler is looked for again, when the shell reported
        `command not found` for a compiler that came from the cache; then
        `error("Compilation failed")` for a nonzero final status. */
    method Attempt(file: string, lang: string) returns (r: Res<()>)
      requires Language(Ext(file)) == Some(lang) && Distinct(variables)
      modifies this`ran, this`variables
      ensures Distinct(variables)
      ensures forall k :: HasKey(old(variables), k) ==> HasKey(variables, k)
      ensures old(ran) <= ran
      ensures Attempted(|old(ran)|, old(variables), file, lang, r)
      ensures r.Ok? <==> Settled(|old(ran)|, lang) && shell(ran[|ran| - 1]) == 0
      ensures Rebound(|old(ran)|, old(variables), file, lang)
      ensures |ran| == |old(ran)| + 2 ==> CompileCommand(variables, file, lang) == Ok(ran[|ran| - 1])
    {
      var status :- RunCompile(file, lang);
      if status != 0 {
        return Fatal("Compilation failed");
      }
      return Ok(());
    }

    /** `exec()`, and once more after `Retry` when the shell reported
        `command not found` for a compiler that came from the cache: the
        result is the final status. */
    method RunCompile(file: string, lang: string) returns (r: Res<int>)
      requires Language(Ext(file)) == Some(lang) && Distinct(variables)
      modifies this`ran, this`variables
      ensures Distinct(variables)
      ensures forall k :: HasKey(old(variables), k) ==> HasKey(variables, k)
      ensures old(ran) <= ran
      ensures Commands(|old(ran)|, old(variables), file, lang)
      ensures Aborted(|old(ran)|, old(variables), file, lang, r)
      ensures r.Ok? <==> Settled(|old(ran)|, lang)
      ensures r.Ok? ==> r.value == shell(ran[|ran| - 1])
      ensures Rebound(|old(ran)|, old(variables), file, lang)
      ensures |ran| == |old(ran)| + 2 ==> CompileCommand(variables, file, lang) == Ok(ran[|ran| - 1])
    {
      r := Exec(file, lang);
      if r == Ok(0x7F00) && HasKey(compCaches, CompilerKey(lang)) {
        r := Retry(file, lang);
      }
    }

    /** The second try after `command not found` for a cached compiler: the
        compiler is looked for again without the cache and, when found,
        `exec()` runs once more with it. */
    method Retry(file: string, lang: string) returns (r: Res<int>)
      requires Language(Ext(file)) == Some(lang) && Distinct(variables)
      requires CompileCommand(variables, file, lang).Ok?
      modifies this`ran, this`variables
      ensures Distinct(variables)
      ensures forall k :: k != CompilerKey(lang) ==> Get(variables, k) == Get(old(variables), k)
      ensures forall k :: HasKey(old(variables), k) ==> HasKey(variables, k)
      ensures var again := Probe(Candidates(lang).value, 0, lang, Get(old(variables), StdKey(lang)), shell);
        (!again.Ok? ==> r == again.PropagateFailure() && ran == old(ran)) &&
        (again.Ok? ==>
           variables == Put(old(variables), CompilerKey(lang), again.value) &&
           CompileCommand(variables, file, lang).Ok? &&
           ran == old(ran) + [CompileCommand(variables, file, lang).value] && r == Ok(shell(ran[|ran| - 1])))
    {
      var found := LookFor(Candidates(lang).value, lang, false);
      if !found.Ok? {
        return found.PropagateFailure();
      }
      StdKeyIsNotCompilerKey(Ext(file), lang);
      r := Exec(file, lang);
    }

    /** One source of `compile(...)`: skipped (`Ok(false)`) exactly when it
        is up to date; otherwise compiled by `Attempt`, after which its
        modification time is recorded and its object exists. */
    method CompileSource(file: string) returns (r: Res<bool>)
      requires Distinct(variables)
      modifies this`hashTable, this`ran, this`made, this`variables
      ensures Distinct(variables)
      ensures forall k :: HasKey(old(variables), k) ==> HasKey(variables, k)
      ensures old(ran) <= ran
      ensures CompilersOnly(old(variables), variables)
      ensures r == Ok(false) <==>
        UpToDate(noCache, old(hashTable), mtime, old(OnDisk()), old(variables), file) == Ok(true)
      ensures r == Ok(false) ==>
        ran == old(ran) && hashTable == old(hashTable) && made == old(made) && variables == old(variables)
      ensures !UpToDate(noCache, old(hashTable), mtime, old(OnDisk()), old(variables), file).Ok? ==>
        r == Crash("FileNotFoundError in getmtime") && ran == old(ran)
      ensures UpToDate(noCache, old(hashTable), mtime, old(OnDisk()), old(variables), file) == Ok(false) ==>
        StaleCompiled(|old(ran)|, old(variables), file, r)
      ensures r == Ok(true) ==> made == old(made) + {CompiledObject(old(variables), file)}
      ensures r == Ok(true) && noCache ==> hashTable == old(hashTable)
      ensures r == Ok(true) && !noCache ==> file in mtime && hashTable == old(hashTable)[file := mtime[file]]
      ensures !r.Ok? ==> hashTable == old(hashTable) && made == old(made)
    {
      var upToDate := UpToDate(noCache, hashTable, mtime, OnDisk(), variables, file);
      if !upToDate.Ok? {
        return Crash(upToDate.reason);
      }
      if upToDate.value {
        return Ok(false);
      }
      r := CompileStale(file);
    }

    /** A source that is not up to date: its language (a `KeyError` for an
        unknown extension), `Attempt`, then `Record`. The object is named
        from the variables as they were before the compile, which it does
        not change: only a compiler variable can be set again. */
    method CompileStale(file: string) returns (r: Res<bool>)
      requires Distinct(variables)
      modifies this`hashTable, this`ran, this`made, this`variables
      ensures Distinct(variables)
      ensures forall k :: HasKey(old(variables), k) ==> HasKey(variables, k)
      ensures old(ran) <= ran
      ensures CompilersOnly(old(variables), variables)
      ensures Language(Ext(file)).None? ==> variables == old(variables)
      ensures StaleCompiled(|old(ran)|, old(variables), file, r)
      ensures r.Ok? ==> r.value && made == old(made) + {CompiledObject(old(variables), file)}
      ensures r.Ok? && noCache ==> hashTable == old(hashTable)
      ensures r.Ok? && !noCache ==> file in mtime && hashTable == old(hashTable)[file := mtime[file]]
      ensures !r.Ok? ==> hashTable == old(hashTable) && made == old(made)
    {
      var obj := CompiledObject(variables, file);
      var lang := Language(Ext(file));
      if lang.None? {
        return Crash("KeyError in compile");
      }
      var done := Attempt(file, lang.value);
      CompilersOnlyStep(old(variables), old(variables), variables, lang.value);
      if !done.Ok? {
        return done.PropagateFailure();
      }
      r := Record(file, obj);
    }

    /** After a compile that succeeded: the source's modification time is
        recorded when caching is on (a missing source is a crash), and its
        object `obj` exists. */
    method Record(file: string, obj: string) returns (r: Res<bool>)
      modifies this`hashTable, this`made
      ensures r.Ok? || r.Crash?
      ensures r.Ok? <==> noCache || file in mtime
      ensures r.Ok? ==> r.value && made == old(made) + {obj}
      ensures r.Ok? && noCache ==> hashTable == old(hashTable)
      ensures r.Ok? && !noCache ==> hashTable == old(hashTable)[file := mtime[file]]
      ensures !r.Ok? ==> hashTable == old(hashTable) && made == old(made)
    {
      if !noCache {
        if file !in mtime {
          return Crash("FileNotFoundError in getmtime");
        }
        hashTable := hashTable[file := mtime[file]];
      }
      made := made + {obj};
      return Ok(true);
    }

    /** The per-file loop of `compile(...)`, which stops at the first
        source that fails. When it completes, every listed source was
        compiled or found up to date, so its object exists; when caching
        is on, every listed source ends with its current modification time
        recorded. */
    method CompileAll(files: seq<string>) returns (r: Res<()>)
      requires Distinct(variables)
      modifies this`hashTable, this`ran, this`made, this`variables
      ensures Distinct(variables)
      ensures forall k :: HasKey(old(variables), k) ==> HasKey(variables, k)
      ensures old(ran) <= ran
      ensures CompilersOnly(old(variables), variables)
      ensures r.Ok? ==> AllBuilt(files, old(variables), OnDisk())
      ensures r.Ok? && !noCache ==> AllRecorded(files, hashTable, mtime)
    {
      var k := 0;
      while k < |files|
        invariant k <= |files|
        invariant Distinct(variables)
        invariant forall x :: HasKey(old(variables), x) ==> HasKey(variables, x)
        invariant old(ran) <= ran
        invariant CompilersOnly(old(variables), variables)
        invariant AllBuilt(files[..k], old(variables), OnDisk())
        invariant !noCache ==> AllRecorded(files[..k], hashTable, mtime)
      {
        ghost var before, vars, disk := hashTable, variables, OnDisk();
        var done := CompileSource(files[k]);
        if !done.Ok? {
          return done.PropagateFailure();
        }
        if done.value {
          assert done == Ok(true);
        } else {
          assert done == Ok(false);
        }
        if !noCache {
          RecordOneMore(files, k, before, hashTable, mtime);
        }
        CompilersOnlyKeepsLayout(old(variables), vars);
        BuiltOneMore(files, k, old(variables), disk, OnDisk());
        k := k + 1;
      }
      assert files[..k] == files;
      return Ok(());
    }

    /** `compile(...)` in clean mode: the listed objects that exist are
        removed, then the output, whose name must be set. */
    method Clean(objs: seq<string>) returns (f: Flow)
      modifies this`removed
      ensures var output := Get(variables, "OUTPUT");
        (output.None? ==> f == Stop(Crashed("TypeError in compile")) &&
                          removed == old(removed) + Existing(objs, old(OnDisk()))) &&
        (output.Some? ==> f == Next &&
                          removed == old(removed) + Existing(objs + [OutputPath(variables, output.value)], old(OnDisk())))
    {
      RemoveExisting(objs);
      var output := Get(variables, "OUTPUT");
      if output.None? {
        return Stop(Crashed("TypeError in compile"));
      }
      var out := OutputPath(variables, output.value);
      RemoveExisting([out]);
      assert Existing(objs + [out], old(OnDisk())) == Existing(objs, old(OnDisk())) + Existing([out], old(OnDisk()) - Existing(objs, old(OnDisk())));
      return Next;
    }

    /** What `compile(kind, files)` leaves behind. In clean mode nothing is
        run or recorded: the listed objects that exist are removed, then
        the output, whose name must be set. Otherwise nothing is removed,
        only compiler variables may change and, when the run goes on, every
        listed source has its object, the last command run is the link of
        every listed object and, with caching on, every listed source has
        its current modification time recorded. */
    twostate predicate CompileDone(kind: string, files: string, f: Flow)
      reads this
    {
      var objs := Objects(old(variables), Split(files, " "));
      var output := Get(old(variables), "OUTPUT");
      (clean ==>
        ran == old(ran) && hashTable == old(hashTable) && variables == old(variables) && made == old(made) &&
        (output.None? ==> f == Stop(Crashed("TypeError in compile")) &&
                          removed == old(removed) + Existing(objs, old(OnDisk()))) &&
        (output.Some? ==> f == Next &&
                          removed == old(removed) + Existing(objs + [OutputPath(old(variables), output.value)], old(OnDisk())))) &&
      (!clean ==> removed == old(removed) && CompilersOnly(old(variables), variables)) &&
      (!clean && f.Next? ==>
        |ran| > |old(ran)| && LinkCommand(variables, kind, objs) == Ok(ran[|ran| - 1]) &&
        AllBuilt(Split(files, " "), old(variables), OnDisk()) &&
        (!noCache ==> AllRecorded(Split(files, " "), hashTable, mtime)))
    }

    /** `compile(KIND, FILES)`: its arguments parsed, then carried out. */
    method DoCompileLine(line: string) returns (f: Flow)
      requires Distinct(variables)
      modifies this`hashTable, this`ran, this`made, this`variables, this`removed
      ensures Distinct(variables)
      ensures forall k :: HasKey(old(variables), k) ==> HasKey(variables, k)
      ensures old(ran) <= ran
      ensures f.Stop? ==> !f.ending.Finished?
      ensures !CompileParts(line).Ok? ==>
        f == Stop(Stopped(CompileParts(line))) && ran == old(ran) && hashTable == old(hashTable) &&
        variables == old(variables) && made == old(made) && removed == old(removed)
      ensures CompileParts(line).Ok? ==> CompileDone(CompileParts(line).value.0, CompileParts(line).value.1, f)
    {
      var parts := CompileParts(line);
      if parts.Ok? {
        f := DoCompile(parts.value.0, parts.value.1);
      } else {
        f := Stop(Stopped(parts));
      }
    }

    /** `compile(KIND, FILES)` with its arguments parsed: clean mode only
        removes; otherwise every source is compiled and the objects are
        linked, the link's status not being consulted. */
    method DoCompile(kind: string, files: string) returns (f: Flow)
      requires Distinct(variables)
      modifies this`hashTable, this`ran, this`made, this`variables, this`removed
      ensures Distinct(variables)
      ensures forall k :: HasKey(old(variables), k) ==> HasKey(variables, k)
      ensures old(ran) <= ran
      ensures f.Stop? ==> !f.ending.Finished?
      ensures CompileDone(kind, files, f)
    {
      var fileList := Split(files, " ");
      var objs := Objects(variables, fileList);
      if clean {
        f := Clean(objs);
      } else {
        f := Build(kind, fileList, objs);
      }
    }

    /** `compile(...)` outside clean mode: every source compiled, then the
        objects linked. */
    method Build(kind: string, files: seq<string>, objs: seq<string>) returns (f: Flow)
      requires Distinct(variables)
      modifies this`hashTable, this`ran, this`made, this`variables
      ensures Distinct(variables)
      ensures forall k :: HasKey(old(variables), k) ==> HasKey(variables, k)
      ensures old(ran) <= ran
      ensures f.Stop? ==> !f.ending.Finished?
      ensures CompilersOnly(old(variables), variables)
      ensures f.Next? ==>
        |ran| > |old(ran)| && LinkCommand(variables, kind, objs) == Ok(ran[|ran| - 1]) &&
        AllBuilt(files, old(variables), OnDisk()) &&
        (!noCache ==> AllRecorded(files, hashTable, mtime))
    {
      var done := CompileAll(files);
      if !done.Ok? {
        return Stop(Stopped(done));
      }
      var link := LinkCommand(variables, kind, objs);
      if !link.Ok? {
        return Stop(Stopped(link));
      }
      ran := ran + [link.value];
      return Next;
    }

    /** The two directives that run the toolchain, `check_for` and
        `compile`: what they do is stated by `DoCheckFor` and
        `DoCompileLine`; here only what every directive keeps. */
    method DoToolchain(line: string) returns (f: Flow)
      requires Valid() && (Classify(line) == CheckFor || Classify(line) == Compile)
      modifies this`variables, this`hashTable, this`ran, this`removed, this`made
      ensures Valid()
      ensures f.Stop? ==> !f.ending.Finished?
      ensures forall k :: HasKey(old(variables), k) ==> HasKey(variables, k)
      ensures old(ran) <= ran
    {
      if Classify(line) == CheckFor {
        f := DoCheckFor(line);
      } else {
        f := DoCompileLine(line);
      }
    }

    /** The directive of a rewritten line, carried out. `print` and unknown
        lines change nothing; `exit` stops with its code. */
    method Dispatch(line: string) returns (f: Flow)
      requires Valid() && pc < |lines|
      modifies this`pc, this`defines, this`variables, this`hashTable, this`ran, this`removed, this`made
      ensures Valid()
      ensures f.Next? ==> old(pc) <= pc < |lines|
      ensures f.Stop? ==> !f.ending.Finished?
      ensures Classify(line) == Print || Classify(line) == Ignored ==>
        f == Next && pc == old(pc) && defines == old(defines) && variables == old(variables) &&
        ran == old(ran) && hashTable == old(hashTable) && removed == old(removed) && made == old(made)
      ensures Classify(line) == Exit ==>
        (ExitCode(line).Ok? ==> f == Stop(Exited(ExitCode(line).value))) &&
        (!ExitCode(line).Ok? ==> f == Stop(Stopped(ExitCode(line))))
      ensures forall k :: HasKey(old(defines), k) ==> HasKey(defines, k)
      ensures forall k :: HasKey(old(variables), k) ==> HasKey(variables, k)
      ensures old(ran) <= ran
    {
      match Classify(line) {
        case Define => f := DoDefine(line);
        case SetVar => f := DoSet(line);
        case If => f := DoIf(line);
        case CheckFor => f := DoToolchain(line);
        case Print => f := Next;
        case Compile => f := DoToolchain(line);
        case Exit =>
          var code := ExitCode(line);
          f := if code.Ok? then Stop(Exited(code.value)) else Stop(Stopped(code));
        case Ignored => f := Next;
      }
    }

    /** One turn of the main loop: the current line is rewritten in place
        and its directive carried out; the counter moves on unless the run
        stops. A failed rewrite stops the run with the line untouched. */
    method Step() returns (f: Flow, rw: Res<string>)
      requires Valid() && pc < |lines|
      modifies this
      ensures Valid()
      ensures |lines| == |old(lines)|
      ensures f.Next? ==> old(pc) < pc
      ensures f.Stop? ==> !f.ending.Finished?
      ensures rw == Rewrite(old(defines), old(variables), old(lines)[old(pc)])
      ensures rw.Ok? ==> lines == old(lines)[old(pc) := rw.value]
      ensures !rw.Ok? ==> f == Stop(Stopped(rw)) && lines == old(lines)
      ensures forall k :: HasKey(old(defines), k) ==> HasKey(defines, k)
      ensures forall k :: HasKey(old(variables), k) ==> HasKey(variables, k)
      ensures old(ran) <= ran
    {
      rw := RewriteLine(defines, variables, lines[pc]);
      if !rw.Ok? {
        return Stop(Stopped(rw)), rw;
      }
      lines := lines[pc := rw.value];
      f := Dispatch(rw.value);
      if f.Next? {
        pc := pc + 1;
      }
    }

    /** The main loop: steps until the counter passes the last line or a
        step stops the run. */
    method Run() returns (e: Ending)
      requires Valid()
      modifies this
      ensures Valid()
      ensures e.Finished? ==> pc == |lines|
      ensures forall k :: HasKey(old(defines), k) ==> HasKey(defines, k)
      ensures forall k :: HasKey(old(variables), k) ==> HasKey(variables, k)
      ensures old(ran) <= ran
    {
      while pc < |lines|
        invariant Valid()
        invariant forall k :: HasKey(old(defines), k) ==> HasKey(defines, k)
        invariant forall k :: HasKey(old(variables), k) ==> HasKey(variables, k)
        invariant old(ran) <= ran
        decreases |lines| - pc
      {
        var f, _ := Step();
        if f.Stop? {
          return f.ending;
        }
      }
      return Finished;
    }
  }
}
