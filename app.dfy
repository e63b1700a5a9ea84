/**
 * Startup of the firewall: compiling the configured patterns of every watched
 * file, and bringing the ipset sets and iptables rules of the namespace into
 * place unless they are there already.
 */
module App {
  import opened Wrappers
  import opened Strings
  import opened Host
  import opened Config

  /** The expression a `__IP__` marker in a configured pattern stands for. */
  const IPRegexString: string := "(?:(?:25[0-5]|(2[0-4]|1\\d|[1-9]|)\\d)\\.?\\b){4}"

  /** The shortcut configured patterns may use for an IPv4 address. */
  const Marker: string := "__IP__"

  // ---------------------------------------------------------------------------
  // Pattern preparation
  // ---------------------------------------------------------------------------

  /**
   * The text prepareRegex compiles: the first marker of `pattern` replaced by
   * the address expression, everything before and after it as written.
   */
  function ExpandPattern(pattern: string): (r: string)
    ensures IndexOf(pattern, Marker).None? ==> r == pattern
    ensures IndexOf(pattern, Marker).Some? ==> |r| == |pattern| - |Marker| + |IPRegexString|
  {
    ReplaceFirst(pattern, Marker, IPRegexString)
  }

  /**
   * A pattern without the marker is compiled as written; otherwise the
   * address expression takes the place of the first marker, and the text
   * before it and after it, later markers included, is kept as written.
   */
  lemma ExpandPatternFirst(pattern: string)
    ensures !Contains(pattern, Marker) ==> ExpandPattern(pattern) == pattern
    ensures forall i: nat {:trigger FirstOccurrence(pattern, Marker, i)} :: FirstOccurrence(pattern, Marker, i) ==>
      ExpandPattern(pattern) == pattern[..i] + IPRegexString + pattern[i + |Marker|..]
  {
    ReplaceFirstAtFirst(pattern, Marker, IPRegexString);
  }

  /**
   * Only the first marker is replaced: of a pattern holding two markers the
   * second one is still there, as written, after the expansion.
   */
  lemma SecondMarkerKept()
    ensures ExpandPattern("__IP__ __IP__") == IPRegexString + " __IP__"
  {
    var p := "__IP__ __IP__";
    assert OccursAt(p, Marker, 0);
    assert p[6..] == " __IP__";
  }

  /**
   * prepareRegex: compiles the expanded pattern; `valid` says which texts the
   * regular-expression compiler accepts. None stands for the fatal exit on a
   * pattern that does not compile.
   */
  function PrepareRegex(pattern: string, valid: string -> bool): (r: Option<Regexp>)
    ensures r.Some? <==> valid(ExpandPattern(pattern))
    ensures r.Some? ==> r.value.source == ExpandPattern(pattern)
  {
    var text := ExpandPattern(pattern);
    if valid(text) then Some(Regexp(text)) else None
  }

  // ---------------------------------------------------------------------------
  // Compiling every file's patterns
  // ---------------------------------------------------------------------------

  /** Every pattern of `ps` compiles once expanded. */
  predicate AllCompile(ps: seq<string>, valid: string -> bool) {
    forall i :: 0 <= i < |ps| ==> valid(ExpandPattern(ps[i]))
  }

  /** The compiled expressions of `ps`, one per pattern, in the same order. */
  function Compiled(ps: seq<string>): (rs: seq<Regexp>)
    ensures |rs| == |ps|
    ensures forall i :: 0 <= i < |ps| ==> rs[i].source == ExpandPattern(ps[i])
    decreases |ps|
  {
    if ps == [] then [] else Compiled(ps[..|ps| - 1]) + [Regexp(ExpandPattern(ps[|ps| - 1]))]
  }

  /** The accept (or, with `accept` false, the reject) patterns of a file. */
  function Listed(fc: FileConfig, accept: bool): seq<string> {
    if accept then fc.accept else fc.reject
  }

  /**
   * The map initRegexps builds for the files in `done`: a file gets an entry
   * once a pattern has been appended for it, so a file with no pattern of the
   * kind has none (and reads as the empty list).
   */
  function CompiledMap(files: map<string, FileConfig>, done: set<string>, accept: bool): map<string, seq<Regexp>> {
    map fn | fn in done && fn in files && Listed(files[fn], accept) != [] :: Compiled(Listed(files[fn], accept))
  }

  /** Finishing one more file adds its entry, when it has patterns of the kind. */
  lemma CompiledMapAdd(files: map<string, FileConfig>, done: set<string>, accept: bool, fn: string)
    requires fn in files && fn !in done
    ensures CompiledMap(files, done + {fn}, accept) ==
      if Listed(files[fn], accept) == [] then CompiledMap(files, done, accept)
      else CompiledMap(files, done, accept)[fn := Compiled(Listed(files[fn], accept))]
  {
  }

  /**
   * For every file, the matchers are exactly the configured patterns,
   * compiled, in the configured order.
   */
  lemma CompiledMapPatterns(files: map<string, FileConfig>, accept: bool, fn: string)
    requires fn in files
    ensures var rs := Patterns(CompiledMap(files, files.Keys, accept), fn);
      var ps := Listed(files[fn], accept);
      |rs| == |ps| && forall i :: 0 <= i < |ps| ==> rs[i].source == ExpandPattern(ps[i])
  {
  }

  /**
   * Appends the compiled `ps` to the (absent) entry of `fn`, one pattern at a
   * time, as the inner loops of initRegexps do. None: a pattern did not compile.
   */
  method AppendCompiled(m: map<string, seq<Regexp>>, fn: string, ps: seq<string>, valid: string -> bool)
    returns (r: Option<map<string, seq<Regexp>>>)
    requires fn !in m
    ensures r.Some? <==> AllCompile(ps, valid)
    ensures r.Some? ==> r.value == if ps == [] then m else m[fn := Compiled(ps)]
  {
    var acc := m;
    for i := 0 to |ps|
      invariant AllCompile(ps[..i], valid)
      invariant i == 0 ==> acc == m
      invariant i > 0 ==> acc == m[fn := Compiled(ps[..i])]
    {
      var re := PrepareRegex(ps[i], valid);
      if re.None? {
        assert !AllCompile(ps, valid);
        return None;
      }
      var list := Patterns(acc, fn);
      assert list == Compiled(ps[..i]);
      CompiledStep(ps, i, valid);
      acc := acc[fn := list + [re.value]];
    }
    assert ps[..|ps|] == ps;
    return Some(acc);
  }

  /** Compiling one more pattern appends its expression and keeps every pattern compiling. */
  lemma CompiledStep(ps: seq<string>, i: nat, valid: string -> bool)
    requires i < |ps|
    ensures Compiled(ps[..i + 1]) == Compiled(ps[..i]) + [Regexp(ExpandPattern(ps[i]))]
    ensures AllCompile(ps[..i], valid) && valid(ExpandPattern(ps[i])) ==> AllCompile(ps[..i + 1], valid)
  {
    assert ps[..i + 1][..i] == ps[..i] && ps[..i + 1][i] == ps[i];
  }

  /** Every pattern of every file compiles. */
  predicate AllFilesCompile(files: map<string, FileConfig>, valid: string -> bool) {
    forall fn :: fn in files ==> AllCompile(files[fn].accept, valid) && AllCompile(files[fn].reject, valid)
  }

  /**
   * initRegexps: rebuilds both pattern maps from the configured files. None
   * stands for the fatal exit when some pattern does not compile; otherwise
   * the rest of the configuration is unchanged.
   */
  method InitRegexps(cfg: Config, valid: string -> bool) returns (r: Option<Config>)
    ensures r.Some? <==> AllFilesCompile(cfg.files, valid)
    ensures r.Some? ==> r.value == cfg.(acceptRegexps := CompiledMap(cfg.files, cfg.files.Keys, true),
                                        rejectRegexps := CompiledMap(cfg.files, cfg.files.Keys, false))
  {
    var accept: map<string, seq<Regexp>> := map[];
    var reject: map<string, seq<Regexp>> := map[];
    var todo := cfg.files.Keys;
    ghost var done: set<string> := {};
    while todo != {}
      invariant done !! todo && done + todo == cfg.files.Keys
      invariant forall fn :: fn in done ==>
        AllCompile(cfg.files[fn].accept, valid) && AllCompile(cfg.files[fn].reject, valid)
      invariant accept == CompiledMap(cfg.files, done, true)
      invariant reject == CompiledMap(cfg.files, done, false)
      decreases todo
    {
      var fn :| fn in todo;
      var fc := cfg.files[fn];
      var a := AppendCompiled(accept, fn, fc.accept, valid);
      if a.None? {
        return None;
      }
      var b := AppendCompiled(reject, fn, fc.reject, valid);
      if b.None? {
        return None;
      }
      CompiledMapAdd(cfg.files, done, true, fn);
      CompiledMapAdd(cfg.files, done, false, fn);
      accept, reject := a.value, b.value;
      todo := todo - {fn};
      done := done + {fn};
    }
    assert done == cfg.files.Keys;
    return Some(cfg.(acceptRegexps := accept, rejectRegexps := reject));
  }

  // ---------------------------------------------------------------------------
  // Bootstrap of the backend
  // ---------------------------------------------------------------------------

  /** The PATH after setupIPSetsAndTables: the configured directories, trailing colons trimmed, in front. */
  function NewPath(configPath: string, path: string): (r: string)
    ensures configPath == [] ==> r == path
    ensures configPath != [] ==>
      exists k :: 0 <= k <= |configPath| && r == configPath[..k] + ":" + path &&
        (k == 0 || configPath[k - 1] != ':') && forall i :: k <= i < |configPath| ==> configPath[i] == ':'
  {
    if configPath == [] then path
    else
      var t := TrimRight(configPath, ':');
      assert configPath[..|t|] == t;
      t + ":" + path
  }

  /** The command that lists the current iptables rules. */
  const SaveCommand: Command := Command("iptables-save", [])

  /**
   * The four bootstrap commands, in the order they run: the reject set with
   * its timeout, the DROP rule on it, the accept set, the ACCEPT rule on it.
   */
  function BootstrapCommands(name: string, timeout: int): (cmds: seq<Command>)
    ensures |cmds| == 4
    ensures cmds[0].program == "ipset" && cmds[2].program == "ipset"
    ensures cmds[1].program == "iptables" && cmds[3].program == "iptables"
  {
    [Command("ipset", ["create", name + "-" + "reject", "hash:net", "timeout", FormatInt(timeout)]),
     Command("iptables", ["-A", "INPUT", "-m", "set", "--match-set", name + "-" + "reject", "src", "-j", "DROP"]),
     Command("ipset", ["create", name + "-" + "accept", "hash:net"]),
     Command("iptables", ["-A", "INPUT", "-m", "set", "--match-set", name + "-" + "accept", "src", "-j", "ACCEPT"])]
  }

  /**
   * The bootstrap creates both sets before the rules that use them, and
   * the reject set's timeout reads back as the configured one.
   */
  lemma BootstrapOrder(name: string, timeout: int)
    ensures var cmds := BootstrapCommands(name, timeout);
      cmds[0].args[1] == cmds[1].args[5] == name + "-reject" &&
      cmds[2].args[1] == cmds[3].args[5] == name + "-accept" &&
      cmds[1].args[8] == "DROP" && cmds[3].args[8] == "ACCEPT" &&
      (timeout >= 0 ==> DecimalValue(cmds[0].args[4]) == timeout)
  {
  }

  /**
   * setupIPSetsAndTables: extends PATH when a path is configured, reads the
   * iptables rules, and runs the four bootstrap commands unless the
   * namespace's accept set is mentioned there already. Returns false on the
   * fatal exit after the first bootstrap command that fails.
   */
  method SetupIPSetsAndTables(cfg: Config, host: Host) returns (ok: bool)
    modifies host
    ensures host.path == NewPath(cfg.path, old(host.path))
    ensures var h := old(host.issued) + [SaveCommand];
      var out := host.output(old(host.issued), SaveCommand);
      var run := RunUntilFailure(h, BootstrapCommands(cfg.name, cfg.rejectTimeout), host.succeeds);
      if Contains(out, cfg.name + "-" + "accept") then host.issued == h && ok
      else host.issued == h + run.0 && ok == run.1
  {
    if |cfg.path| != 0 {
      host.path := TrimRight(cfg.path, ':') + ":" + host.path;
    }
    var out := host.CombinedOutput(SaveCommand);
    if Contains(out, cfg.name + "-" + "accept") {
      return true;
    }
    ok := Bootstrap(BootstrapCommands(cfg.name, cfg.rejectTimeout), host);
  }

  /**
   * The else branch of setupIPSetsAndTables: runs the four bootstrap
   * commands in order, each fatal when it fails.
   */
  method Bootstrap(cmds: seq<Command>, host: Host) returns (ok: bool)
    requires |cmds| == 4
    modifies host`issued
    ensures var run := RunUntilFailure(old(host.issued), cmds, host.succeeds);
      host.issued == old(host.issued) + run.0 && ok == run.1
  {
    ghost var s := host.succeeds;
    ghost var h := host.issued;
    ghost var r1 := RunUntilFailure(h + cmds[..1], cmds[1..], s);
    ghost var r2 := RunUntilFailure(h + cmds[..2], cmds[2..], s);
    ghost var r3 := RunUntilFailure(h + cmds[..3], cmds[3..], s);
    assert h + cmds[..1] == h + [cmds[0]];
    ok := host.Run(cmds[0]);
    if !ok {
      return;
    }
    assert RunUntilFailure(h, cmds, s) == ([cmds[0]] + r1.0, r1.1);
    assert h + cmds[..2] == (h + cmds[..1]) + [cmds[1]] && cmds[1..][1..] == cmds[2..];
    ok := host.Run(cmds[1]);
    if !ok {
      return;
    }
    assert r1 == ([cmds[1]] + r2.0, r2.1);
    assert h + cmds[..3] == (h + cmds[..2]) + [cmds[2]] && cmds[2..][1..] == cmds[3..];
    ok := host.Run(cmds[2]);
    if !ok {
      return;
    }
    assert r2 == ([cmds[2]] + r3.0, r3.1);
    assert cmds[3..] == [cmds[3]] && cmds[3..][1..] == [];
    ok := host.Run(cmds[3]);
    assert r3 == if ok then ([cmds[3]] + [], true) else ([cmds[3]], false);
  }
}
