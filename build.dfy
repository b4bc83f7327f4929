/** The build planning of a `compile(KIND, FILES)` directive: which object
    files a list of sources stands for, the exact compile and link command
    lines, and when a source is up to date and skipped. */
module Build {

  import opened Outcomes
  import opened Text
  import opened Tables
  import opened Toolchain

  /** `file.split('.')[-1]`: the last `.`-suffix, or the whole name. */
  function Ext(file: string): string
  {
    var pieces := Split(file, ".");
    pieces[|pieces| - 1]
  }

  /** `".".join(file.split('.')[:-1])`: the name without its last suffix. */
  function Stem(file: string): string
  {
    var pieces := Split(file, ".");
    Join(pieces[..|pieces| - 1], ".")
  }

  /** `BUILD_DIR`, `.` when unset. */
  function BuildDir(vars: Table): string { GetOr(vars, "BUILD_DIR", ".") }

  predicate IsSource(file: string)
  {
    Ext(file) in ["c", "cpp", "asm", "S"]
  }

  /** How the object list names the object of a source: the last suffix
      replaced by `o`. */
  function ListedObject(vars: Table, file: string): string
  {
    var pieces := Split(file, ".");
    BuildDir(vars) + "/" + Join(pieces[..|pieces| - 1] + ["o"], ".")
  }

  /** How the compile command and the skip test name the object of a
      source: the stem followed by `.o`. */
  function CompiledObject(vars: Table, file: string): string
  {
    BuildDir(vars) + "/" + Stem(file) + ".o"
  }

  /** The object list of a `compile` directive: one path per source file,
      in order; other files are left out. */
  function Objects(vars: Table, files: seq<string>): (r: seq<string>)
    ensures |r| <= |files|
    ensures forall o :: o in r <==> exists f :: f in files && IsSource(f) && o == ListedObject(vars, f)
    decreases |files|
  {
    if |files| == 0 then []
    else
      var rest := Objects(vars, files[1..]);
      assert forall f :: f in files <==> f == files[0] || f in files[1..];
      (if IsSource(files[0]) then [ListedObject(vars, files[0])] else []) + rest
  }

  /** The objects of a concatenated file list are those of each part in
      turn: one object per source, in the order of the sources. */
  lemma {:induction false} ObjectsConcat(vars: Table, a: seq<string>, b: seq<string>)
    ensures Objects(vars, a + b) == Objects(vars, a) + Objects(vars, b)
    decreases |a|
  {
    if a == [] {
      assert a + b == b;
    } else {
      ObjectsConcat(vars, a[1..], b);
      assert (a + b)[1..] == a[1..] + b;
    }
  }

  /** A single file has its object exactly when it is a source. */
  lemma ObjectsSingle(vars: Table, file: string)
    ensures Objects(vars, [file]) == if IsSource(file) then [ListedObject(vars, file)] else []
  {
  }

  lemma {:induction false} JoinSnoc(parts: seq<string>, x: string, sep: string)
    requires |parts| >= 1
    ensures Join(parts + [x], sep) == Join(parts, sep) + sep + x
    decreases |parts|
  {
    if |parts| == 1 {
      assert parts + [x] == [parts[0], x];
    } else {
      JoinSnoc(parts[1..], x, sep);
      assert (parts + [x])[1..] == parts[1..] + [x];
    }
  }

  /** For every name with a `.`, the object list and the compile command
      agree on the object's path, so a clean removes and a link reads the
      file a compile wrote. */
  lemma ObjectNamesAgree(vars: Table, file: string)
    requires Contains(file, ".")
    ensures ListedObject(vars, file) == CompiledObject(vars, file)
  {
    var pieces := Split(file, ".");
    if |pieces| == 1 {
      SplitSingle(file);
    }
    JoinSnoc(pieces[..|pieces| - 1], "o", ".");
  }

  /** A name that splits into one piece holds no `.`. */
  lemma SplitSingle(file: string)
    requires |Split(file, ".")| == 1
    ensures !Contains(file, ".")
  {
    JoinSplit(file, ".");
    var pieces := Split(file, ".");
    SplitPiecesFree(file, '.');
    assert file == pieces[0];
    NoCharNoContains(file, '.');
  }

  /** For a source named just `c` the two disagree: the list holds `./o`,
      the compiler writes `./.o`. */
  lemma ObjectNamesDisagreeWithoutDot()
    ensures IsSource("c")
    ensures ListedObject([], "c") == "./o"
    ensures CompiledObject([], "c") == "./.o"
  {
    assert Split("c", ".") == ["c"] by {
      assert '.' !in "c";
      SplitAfterPiece("c", '.', "");
    }
  }

  /** The language of a source suffix; `None` is the `KeyError` of the
      suffix table. */
  function Language(ext: string): (r: Option<string>)
    ensures r.Some? <==> ext in ["c", "cpp", "asm", "S"]
    ensures r.Some? ==> Candidates(r.value).Some? && TestCode(r.value).Some?
  {
    match ext
    case "c" => Some("C")
    case "cpp" => Some("CXX")
    case "asm" => Some("ASM_INTEL")
    case "S" => Some("ASM_ATT")
    case _ => None
  }

  /** `str({'c': 'C', 'cpp': 'CXX'}.get(ext, None))`: the language whose
      standard variable the compile command consults; `"None"` for the
      assembly suffixes. */
  function StdLanguage(ext: string): string
  {
    if ext == "c" then "C" else if ext == "cpp" then "CXX" else "None"
  }

  /** The head of the compile command, before the standard or the flags:
      `<compiler> -o <object> -c|-felf64 <file>`. */
  function CompileHead(compiler: string, vars: Table, file: string): string
  {
    compiler + " -o " + CompiledObject(vars, file) + " "
      + (if Ext(file) in ["asm", "S"] then "-felf64 " else "-c ") + file
  }

  /** The command that compiles one source of language `lang`. It crashes
      when `<lang>_COMPILER` is unset, and when an assembly source meets a
      variable named `None_STD`. A set `C_STD` or `CXX_STD` adds
      ` -std=c<STD>` or ` -std=c++<STD>` and drops the flags; otherwise
      `<lang>_FLAGS` follows the file name with no space between. */
  function CompileCommand(vars: Table, file: string, lang: string): (r: Res<string>)
    requires Language(Ext(file)) == Some(lang)
    ensures r.Ok? || r.Crash?
    ensures r.Ok? <==> (HasKey(vars, CompilerKey(lang)) &&
                        (Ext(file) in ["c", "cpp"] || !HasKey(vars, StdKey(StdLanguage(Ext(file))))))
    ensures r.Ok? ==> StartsWith(r.value, CompileHead(Get(vars, CompilerKey(lang)).value, vars, file))
  {
    var ext := Ext(file);
    match Get(vars, CompilerKey(lang))
    case None => Crash("KeyError in compile")
    case Some(compiler) =>
      var head := CompileHead(compiler, vars, file);
      var stdKey := StdKey(StdLanguage(ext));
      if HasKey(vars, stdKey) then
        if ext == "c" then Ok(head + (" -std=c" + Get(vars, stdKey).value))
        else if ext == "cpp" then Ok(head + (" -std=c++" + Get(vars, stdKey).value))
        else Crash("KeyError in compile")
      else Ok(head + GetOr(vars, lang + "_FLAGS", ""))
  }

  /** Without a standard variable, `<lang>_FLAGS` follows the file name
      with no space between; with `C_STD` set, a C source gets
      ` -std=c<STD>` and no flags. */
  lemma CommandShape(vars: Table, file: string, lang: string)
    requires Language(Ext(file)) == Some(lang) && HasKey(vars, CompilerKey(lang))
    ensures !HasKey(vars, StdKey(StdLanguage(Ext(file)))) ==>
      CompileCommand(vars, file, lang) ==
        Ok(CompileHead(Get(vars, CompilerKey(lang)).value, vars, file) + GetOr(vars, lang + "_FLAGS", ""))
    ensures Ext(file) == "c" && HasKey(vars, "C_STD") ==>
      CompileCommand(vars, file, lang) ==
        Ok(CompileHead(Get(vars, CompilerKey(lang)).value, vars, file) + (" -std=c" + Get(vars, "C_STD").value))
  {
    var compiler := Get(vars, CompilerKey(lang)).value;
    assert Get(vars, CompilerKey(lang)) == Some(compiler);
    if Ext(file) == "c" {
      assert StdLanguage(Ext(file)) == "C";
      assert StdKey("C") == "C_STD";
    }
  }

  /** `gcc -o ./main.o -c main.c-O2`: flags are glued to the file name.
      (`MainDotC` shows that `main.c` splits as required.) */
  lemma FlagsFollowWithoutSpace(vars: Table, file: string)
    requires Split(file, ".") == ["main", "c"]
    requires Get(vars, "C_COMPILER") == Some("gcc") && Get(vars, "C_FLAGS") == Some("-O2")
    requires !HasKey(vars, "C_STD") && !HasKey(vars, "BUILD_DIR")
    ensures Language(Ext(file)) == Some("C")
    ensures CompileCommand(vars, file, "C") == Ok("gcc -o ./main.o -c " + file + "-O2")
  {
    MainKeys();
    CommandShape(vars, file, "C");
    MainHead(vars, file);
  }

  /** `gcc -o ./main.o -c main.c -std=c99`: with a standard, the flags are
      dropped. */
  lemma StandardReplacesFlags(vars: Table, file: string)
    requires Split(file, ".") == ["main", "c"]
    requires Get(vars, "C_COMPILER") == Some("gcc") && Get(vars, "C_FLAGS") == Some("-O2")
    requires Get(vars, "C_STD") == Some("99") && !HasKey(vars, "BUILD_DIR")
    ensures Language(Ext(file)) == Some("C")
    ensures CompileCommand(vars, file, "C") == Ok("gcc -o ./main.o -c " + file + " -std=c99")
  {
    MainKeys();
    CommandShape(vars, file, "C");
    MainHead(vars, file);
    assert " -std=c" + "99" == " -std=c99";
  }

  lemma MainKeys()
    ensures Language("c") == Some("C")
    ensures CompilerKey("C") == "C_COMPILER" && StdKey(StdLanguage("c")) == "C_STD"
    ensures "C" + "_FLAGS" == "C_FLAGS"
  {
  }

  /** The head of the command that compiles `main.c` with `gcc`. */
  lemma MainHead(vars: Table, file: string)
    requires Split(file, ".") == ["main", "c"] && !HasKey(vars, "BUILD_DIR")
    ensures Ext(file) == "c"
    ensures CompileHead("gcc", vars, file) == "gcc -o ./main.o -c " + file
  {
    assert ["main", "c"][..1] == ["main"];
    assert Stem(file) == "main";
    assert BuildDir(vars) == ".";
    assert CompiledObject(vars, file) == "./main.o";
    assert "c" !in ["asm", "S"];
    assert "gcc" + " -o " + "./main.o" + " " + "-c " == "gcc -o ./main.o -c ";
  }

  /** `main.c` meets the requirement of the examples above. */
  lemma MainDotC()
    ensures Split("main.c", ".") == ["main", "c"]
  {
    assert "main.c" == "main" + ['.'] + "c";
    SplitAfterPiece("main", '.', "c");
    SplitAfterPiece("c", '.', "");
  }

  /** `<OUTPUT_DIR>/<OUTPUT>`, `OUTPUT_DIR` defaulting to `.`. */
  function OutputPath(vars: Table, output: string): string
  {
    GetOr(vars, "OUTPUT_DIR", ".") + "/" + output
  }

  /** The link command of `compile(KIND, ...)`:
      `<KIND>_COMPILER -shared -o <out> <objs>` for a shared library, and
      `<KIND>_COMPILER rcs  <out> <objs>` otherwise (the empty word leaves
      two spaces). It crashes when `OUTPUT` or the linker is unset. */
  function LinkCommand(vars: Table, kind: string, objs: seq<string>): (r: Res<string>)
    ensures r.Ok? || r.Crash?
    ensures r.Ok? <==> HasKey(vars, "OUTPUT") && HasKey(vars, CompilerKey(Upper(kind)))
    ensures r.Ok? ==> StartsWith(r.value, Get(vars, CompilerKey(Upper(kind))).value + " ")
  {
    match Get(vars, "OUTPUT")
    case None => Crash("KeyError in compile")
    case Some(output) =>
      match Get(vars, CompilerKey(Upper(kind)))
      case None => Crash("KeyError in compile")
      case Some(linker) =>
        var shared := Upper(kind) == "SHARED";
        var words := [linker, if shared then "-shared" else "rcs", if shared then "-o" else "",
                      OutputPath(vars, output), Join(objs, " ")];
        JoinCons(linker, words[1..], " ");
        assert words == [linker] + words[1..];
        var r := Join(words, " ");
        assert r == (linker + " ") + Join(words[1..], " ");
        Ok(r)
  }

  /** The two shapes of the link command: `<linker> -shared -o <out>
      <objs>` for a shared library, and `<linker> rcs  <out> <objs>`, with
      two spaces, for anything else. */
  lemma LinkShape(vars: Table, kind: string, objs: seq<string>)
    requires HasKey(vars, "OUTPUT") && HasKey(vars, CompilerKey(Upper(kind)))
    ensures Upper(kind) == "SHARED" ==>
      LinkCommand(vars, kind, objs) == Ok(Get(vars, CompilerKey(Upper(kind))).value + " -shared -o " +
                                          OutputPath(vars, Get(vars, "OUTPUT").value) + " " + Join(objs, " "))
    ensures Upper(kind) != "SHARED" ==>
      LinkCommand(vars, kind, objs) == Ok(Get(vars, CompilerKey(Upper(kind))).value + " rcs  " +
                                          OutputPath(vars, Get(vars, "OUTPUT").value) + " " + Join(objs, " "))
  {
    var linker := Get(vars, CompilerKey(Upper(kind))).value;
    var out := OutputPath(vars, Get(vars, "OUTPUT").value);
    assert Get(vars, CompilerKey(Upper(kind))) == Some(linker);
    assert Get(vars, "OUTPUT") == Some(Get(vars, "OUTPUT").value);
    LinkWords(linker, Upper(kind) == "SHARED", out, Join(objs, " "));
  }

  /** The kind of a `compile` is read without regard to case: `shared`,
      `Shared` and `SHARED` give the same link command. */
  lemma LinkIgnoresKindCase(vars: Table, kind: string, objs: seq<string>)
    ensures LinkCommand(vars, Lower(kind), objs) == LinkCommand(vars, kind, objs)
    ensures LinkCommand(vars, Upper(kind), objs) == LinkCommand(vars, kind, objs)
  {
    UpperIgnoresCase(kind);
  }

  /** The words of a link command joined by single spaces: `-shared -o`
      for a shared library, `rcs` and the empty word otherwise. */
  lemma LinkWords(linker: string, shared: bool, out: string, objs: string)
    ensures Join([linker, if shared then "-shared" else "rcs", if shared then "-o" else "", out, objs], " ") ==
      linker + (if shared then " -shared -o " else " rcs  ") + out + " " + objs
  {
    var mode := if shared then "-shared" else "rcs";
    var flag := if shared then "-o" else "";
    JoinCons(out, [objs], " ");
    assert [out] + [objs] == [out, objs];
    JoinCons(flag, [out, objs], " ");
    assert [flag] + [out, objs] == [flag, out, objs];
    JoinCons(mode, [flag, out, objs], " ");
    assert [mode] + [flag, out, objs] == [mode, flag, out, objs];
    JoinCons(linker, [mode, flag, out, objs], " ");
    assert [linker] + [mode, flag, out, objs] == [linker, mode, flag, out, objs];
    if shared {
      assert " " + ("-shared" + " " + ("-o" + " ")) == " -shared -o ";
    } else {
      assert " " + ("rcs" + " " + ("" + " ")) == " rcs  ";
    }
  }

  /** Whether a source is up to date: caching is on, it has a recorded
      modification time equal to its current one, and its object exists.
      Reading the time of a missing file is a crash. */
  function UpToDate(noCache: bool, hashes: map<string, int>, mtime: map<string, int>,
                    onDisk: set<string>, vars: Table, file: string): (r: Res<bool>)
    ensures r.Ok? || r.Crash?
    ensures r == Ok(true) <==> (!noCache && file in hashes && file in mtime &&
                                hashes[file] == mtime[file] && CompiledObject(vars, file) in onDisk)
    ensures r.Crash? <==> !noCache && file in hashes && file !in mtime
  {
    if noCache || file !in hashes then Ok(false)
    else if file !in mtime then Crash("FileNotFoundError in getmtime")
    else Ok(hashes[file] == mtime[file] && CompiledObject(vars, file) in onDisk)
  }
}
