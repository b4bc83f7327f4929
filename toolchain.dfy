/** Choosing a compiler, assembler or linker for a language: the candidate
    lists, the commands that probe a candidate, the order in which
    `look_for` takes the first that qualifies, and which choices are kept
    in the compiler cache for the next run. Running a command is an oracle
    `shell` from the command line to its wait status; 0 means it
    succeeded. */
module Toolchain {

  import opened Outcomes
  import opened Text
  import opened Tables

  /** The languages of `language_to_compiler`, in its order. */
  const Languages: seq<string> := ["C", "CXX", "ASM_INTEL", "ASM_ATT", "SHARED", "STATIC"]

  /** `language_to_compiler[lang]`; `None` is its `KeyError`. */
  function Candidates(lang: string): (r: Option<seq<string>>)
    ensures r.Some? <==> lang in Languages
    ensures r.Some? ==> |r.value| >= 1
  {
    match lang
    case "C" => Some(["cc", "gcc", "clang"])
    case "CXX" => Some(["c++", "g++", "clang++"])
    case "ASM_INTEL" => Some(["nasm", "yasm", "masm"])
    case "ASM_ATT" => Some(["as", "gas"])
    case "SHARED" => Some(["gcc", "clang", "ld"])
    case "STATIC" => Some(["ar"])
    case _ => None
  }

  /** The test program written before a standard check: only the four
      source languages have one, so a standard set for `SHARED` or `STATIC`
      ends in a `KeyError` once a candidate launches. */
  function TestCode(lang: string): (r: Option<string>)
    ensures r.Some? <==> lang in Languages && lang != "SHARED" && lang != "STATIC"
  {
    match lang
    case "C" => Some("int main() {}")
    case "CXX" => Some("int main() {}")
    case "ASM_INTEL" => Some("global _start\n_start:\nret")
    case "ASM_ATT" => Some(".globl _start\n_start:\nret")
    case _ => None
  }

  /** The variable that records the chosen program for a language. */
  function CompilerKey(lang: string): string { lang + "_COMPILER" }

  /** The variable that requests a language standard. */
  function StdKey(lang: string): string { lang + "_STD" }

  lemma KeysDiffer(lang: string)
    ensures CompilerKey(lang) != StdKey(lang)
  {
    assert |CompilerKey(lang)| != |StdKey(lang)|;
  }

  /** Whether the candidate launches at all. */
  function VersionCommand(cand: string): string { cand + " --version" }

  /** `cand -std=<lang lower-cased, x as +><std> .tmp.<lang lower-cased>`:
      for C that is `-std=c99`, for CXX `-std=c++17`. */
  function StdCommand(cand: string, lang: string, std: string): (r: string)
    ensures StartsWith(r, cand + " -std=")
  {
    var l := Lower(lang);
    var r := cand + " -std=" + ReplaceAll(l, "x", "+") + std + " .tmp." + l;
    assert r == (cand + " -std=") + (ReplaceAll(l, "x", "+") + std + " .tmp." + l);
    r
  }

  lemma StdCommandOfCxx(cand: string, std: string)
    ensures StdCommand(cand, "CXX", std) == cand + " -std=c++" + std + " .tmp.cxx"
  {
    assert Lower("CXX") == "cxx";
    assert ReplaceAll("cxx", "x", "+") == "c++" by {
      assert "cxx"[..1] != "x";
      assert "cxx"[1..] == "xx" && "xx"[1..] == "x" && "x"[1..] == "";
    }
  }

  /** A candidate qualifies when it launches and, if a standard is
      requested, compiles the test program with it. */
  predicate Qualifies(cand: string, lang: string, std: Option<string>, shell: string -> int)
  {
    shell(VersionCommand(cand)) == 0 &&
    (std.None? || shell(StdCommand(cand, lang, std.value)) == 0)
  }

  /** What `look_for` does without a cached choice, from candidate `k` on:
      the first candidate that qualifies, or `error` naming every
      candidate. */
  function Probe(cands: seq<string>, k: nat, lang: string, std: Option<string>, shell: string -> int): (r: Res<string>)
    ensures r.Ok? || r.Fatal? || r.Crash?
    ensures r.Fatal? ==> r.message == "Could not find any of " + Join(cands, ", ")
    ensures r.Ok? ==> exists j :: k <= j < |cands| && cands[j] == r.value
    decreases |cands| - k
  {
    if k >= |cands| then Fatal("Could not find any of " + Join(cands, ", "))
    else
      var c := cands[k];
      if shell(VersionCommand(c)) != 0 then Probe(cands, k + 1, lang, std, shell)
      else if std.None? then Ok(c)
      else if TestCode(lang).None? then Crash("KeyError in look_for")
      else if shell(StdCommand(c, lang, std.value)) == 0 then Ok(c)
      else Probe(cands, k + 1, lang, std, shell)
  }

  /** A candidate that does not qualify hands probing on to the next. */
  lemma ProbeSkips(cands: seq<string>, k: nat, lang: string, std: Option<string>, shell: string -> int)
    requires k < |cands|
    requires shell(VersionCommand(cands[k])) != 0 ||
      (std.Some? && TestCode(lang).Some? && shell(StdCommand(cands[k], lang, std.value)) != 0)
    ensures Probe(cands, k, lang, std, shell) == Probe(cands, k + 1, lang, std, shell)
  {
  }

  /** With a test program available, one probing step takes the candidate
      exactly when it qualifies. */
  lemma ProbeStep(cands: seq<string>, k: nat, lang: string, std: Option<string>, shell: string -> int)
    requires k < |cands|
    requires std.None? || TestCode(lang).Some?
    ensures Probe(cands, k, lang, std, shell) ==
      if Qualifies(cands[k], lang, std, shell) then Ok(cands[k]) else Probe(cands, k + 1, lang, std, shell)
  {
  }

  /** With a test program available, probing fails exactly when no
      candidate qualifies. */
  lemma {:induction false} ProbeFindsAny(cands: seq<string>, k: nat, lang: string, std: Option<string>, shell: string -> int)
    requires k <= |cands|
    requires std.None? || TestCode(lang).Some?
    ensures Probe(cands, k, lang, std, shell).Ok? <==>
      exists j :: k <= j < |cands| && Qualifies(cands[j], lang, std, shell)
    decreases |cands| - k
  {
    if k < |cands| {
      ProbeFindsAny(cands, k + 1, lang, std, shell);
      ProbeStep(cands, k, lang, std, shell);
      if !Qualifies(cands[k], lang, std, shell) {
        assert (exists j :: k <= j < |cands| && Qualifies(cands[j], lang, std, shell)) ==>
          exists j :: k + 1 <= j < |cands| && Qualifies(cands[j], lang, std, shell);
      }
    }
  }

  /** With a test program available, probing chooses exactly the first
      qualifying candidate, and fails exactly when none qualifies. */
  lemma {:induction false} ProbeChoosesFirst(cands: seq<string>, k: nat, lang: string, std: Option<string>, shell: string -> int)
    requires k <= |cands|
    requires std.None? || TestCode(lang).Some?
    ensures Probe(cands, k, lang, std, shell).Ok? <==>
      exists j :: k <= j < |cands| && Qualifies(cands[j], lang, std, shell)
    ensures Probe(cands, k, lang, std, shell).Ok? ==>
      exists j :: k <= j < |cands| && cands[j] == Probe(cands, k, lang, std, shell).value &&
        Qualifies(cands[j], lang, std, shell) &&
        forall m :: k <= m < j ==> !Qualifies(cands[m], lang, std, shell)
    decreases |cands| - k
  {
    ProbeFindsAny(cands, k, lang, std, shell);
    if k < |cands| {
      ProbeChoosesFirst(cands, k + 1, lang, std, shell);
      ProbeStep(cands, k, lang, std, shell);
      var r := Probe(cands, k, lang, std, shell);
      if !Qualifies(cands[k], lang, std, shell) && r.Ok? {
        var j :| k + 1 <= j < |cands| && cands[j] == r.value &&
          Qualifies(cands[j], lang, std, shell) &&
          forall m :: k + 1 <= m < j ==> !Qualifies(cands[m], lang, std, shell);
        assert forall m :: k <= m < j ==> !Qualifies(cands[m], lang, std, shell);
      }
    }
  }

  /** A standard requested for a linker cannot be checked: probing crashes
      as soon as one candidate launches, and otherwise reports that none
      was found. */
  lemma {:induction false} ProbeLinkerWithStd(cands: seq<string>, k: nat, lang: string, std: string, shell: string -> int)
    requires k <= |cands|
    requires TestCode(lang).None?
    ensures Probe(cands, k, lang, Some(std), shell).Crash? <==>
      exists j :: k <= j < |cands| && shell(VersionCommand(cands[j])) == 0
    ensures !Probe(cands, k, lang, Some(std), shell).Ok?
    decreases |cands| - k
  {
    if k < |cands| {
      ProbeLinkerWithStd(cands, k + 1, lang, std, shell);
      if shell(VersionCommand(cands[k])) != 0 {
        assert (exists j :: k <= j < |cands| && shell(VersionCommand(cands[j])) == 0) ==>
          exists j :: k + 1 <= j < |cands| && shell(VersionCommand(cands[j])) == 0;
      }
    }
  }

  /** The compiler cache written at the end of a run, in language order:
      `<LANG>_COMPILER` for each known language whose variable is set to a
      non-empty value. */
  function Persisted(vars: Table): Table
  {
    PersistedFrom(vars, Languages)
  }

  function PersistedFrom(vars: Table, langs: seq<string>): (r: Table)
    ensures |r| <= |langs|
    decreases |langs|
  {
    if |langs| == 0 then []
    else
      var key := CompilerKey(langs[0]);
      var keep := if HasKey(vars, key) && Get(vars, key).value != "" then [Entry(key, Get(vars, key).value)] else [];
      keep + PersistedFrom(vars, langs[1..])
  }

  /** An entry is persisted exactly when it is a known language's compiler
      variable, holding its current non-empty value. */
  lemma PersistedExactly(vars: Table, e: Entry)
    ensures e in Persisted(vars) <==>
      (exists lang :: lang in Languages && e.key == CompilerKey(lang)) &&
      Get(vars, e.key) == Some(e.value) && e.value != ""
  {
    PersistedFromExactly(vars, Languages, e);
  }

  lemma {:induction false} PersistedFromExactly(vars: Table, langs: seq<string>, e: Entry)
    ensures e in PersistedFrom(vars, langs) <==>
      (exists lang :: lang in langs && e.key == CompilerKey(lang)) &&
      Get(vars, e.key) == Some(e.value) && e.value != ""
    decreases |langs|
  {
    if |langs| > 0 {
      PersistedFromExactly(vars, langs[1..], e);
      assert forall lang :: lang in langs <==> lang == langs[0] || lang in langs[1..];
    }
  }

  /** The saved cache never names a key twice, so reloading it is exact. */
  lemma PersistedDistinct(vars: Table)
    ensures Distinct(Persisted(vars))
  {
    PersistedFromKeys(vars, Languages);
    var r := Persisted(vars);
    forall i, j | 0 <= i < j < |r| ensures r[i].key != r[j].key {
      PersistedOrder(vars, Languages, i, j);
    }
  }

  /** Each entry of the filtered cache comes from a position of `langs`,
      and later entries from later positions. */
  function Origin(vars: Table, langs: seq<string>, i: nat): (p: nat)
    requires i < |PersistedFrom(vars, langs)|
    ensures p < |langs| && PersistedFrom(vars, langs)[i].key == CompilerKey(langs[p])
    decreases |langs|
  {
    var key := CompilerKey(langs[0]);
    var keep := if HasKey(vars, key) && Get(vars, key).value != "" then [Entry(key, Get(vars, key).value)] else [];
    assert PersistedFrom(vars, langs) == keep + PersistedFrom(vars, langs[1..]);
    if i < |keep| then 0 else 1 + Origin(vars, langs[1..], i - |keep|)
  }

  lemma {:induction false} PersistedOrder(vars: Table, langs: seq<string>, i: nat, j: nat)
    requires i < j < |PersistedFrom(vars, langs)|
    ensures Origin(vars, langs, i) < Origin(vars, langs, j)
    decreases |langs|
  {
    var key := CompilerKey(langs[0]);
    var keep := if HasKey(vars, key) && Get(vars, key).value != "" then [Entry(key, Get(vars, key).value)] else [];
    if i >= |keep| {
      PersistedOrder(vars, langs[1..], i - |keep|, j - |keep|);
    }
  }

  lemma PersistedFromKeys(vars: Table, langs: seq<string>)
    requires langs == Languages
    ensures forall p, q :: 0 <= p < q < |langs| ==> CompilerKey(langs[p]) != CompilerKey(langs[q])
  {
    forall p, q | 0 <= p < q < |langs| ensures CompilerKey(langs[p]) != CompilerKey(langs[q]) {
      assert CompilerKey(langs[p])[..|CompilerKey(langs[p])| - 9] == langs[p];
      assert CompilerKey(langs[q])[..|CompilerKey(langs[q])| - 9] == langs[q];
    }
  }
}
