/**
 * The process environment as the firewall sees it: the PATH variable it may
 * extend, and the external commands (ipset, iptables, iptables-save) it runs.
 * What a command does is not modelled; whether it exits successfully and what
 * it prints are given by two functions of the command and of the commands run
 * before it.
 */
module Host {
  import opened Wrappers

  /** An external command: the program name and its arguments (exec.Command). */
  datatype Command = Command(program: string, args: seq<string>)

  class Host {
    /** The PATH environment variable. */
    var path: string
    /** Every external command run so far, oldest first. */
    var issued: seq<Command>
    /** Whether a command exits successfully, given the commands run before it. */
    const succeeds: (seq<Command>, Command) -> bool
    /** The combined standard output and error of a command, given the commands run before it. */
    const output: (seq<Command>, Command) -> string

    constructor (path: string, succeeds: (seq<Command>, Command) -> bool, output: (seq<Command>, Command) -> string)
      ensures this.path == path && issued == []
      ensures this.succeeds == succeeds && this.output == output
    {
      this.path := path;
      issued := [];
      this.succeeds := succeeds;
      this.output := output;
    }

    /** cmd.Run(): runs the command and reports whether it succeeded. */
    method Run(c: Command) returns (ok: bool)
      modifies this`issued
      ensures issued == old(issued) + [c]
      ensures ok == succeeds(old(issued), c)
    {
      ok := succeeds(issued, c);
      issued := issued + [c];
    }

    /** cmd.CombinedOutput(), with its error ignored as the caller does. */
    method CombinedOutput(c: Command) returns (out: string)
      modifies this`issued
      ensures issued == old(issued) + [c]
      ensures out == output(old(issued), c)
    {
      out := output(issued, c);
      issued := issued + [c];
    }
  }

  /**
   * Runs `cmds` one after another from history `h`, stopping after the first
   * one that fails: the commands actually run, and whether all of them succeeded.
   */
  function RunUntilFailure(h: seq<Command>, cmds: seq<Command>, succeeds: (seq<Command>, Command) -> bool): (r: (seq<Command>, bool))
    ensures r.0 <= cmds
    ensures r.1 ==> r.0 == cmds
    ensures !r.1 ==> r.0 != []
    decreases |cmds|
  {
    if cmds == [] then ([], true)
    else if !succeeds(h, cmds[0]) then ([cmds[0]], false)
    else
      var rest := RunUntilFailure(h + [cmds[0]], cmds[1..], succeeds);
      ([cmds[0]] + rest.0, rest.1)
  }

  /**
   * The commands run are a prefix of `cmds`; each of them but the last
   * succeeded, and the last succeeded exactly when all of `cmds` ran.
   */
  lemma {:induction false} RunUntilFailureStops(h: seq<Command>, cmds: seq<Command>, succeeds: (seq<Command>, Command) -> bool)
    ensures var r := RunUntilFailure(h, cmds, succeeds);
      forall i :: 0 <= i < |r.0| ==> (succeeds(h + cmds[..i], cmds[i]) <==> r.1 || i < |r.0| - 1)
    decreases |cmds|
  {
    if cmds != [] {
      assert cmds[..0] == [] && h + [] == h;
      if succeeds(h, cmds[0]) {
        RunUntilFailureStops(h + [cmds[0]], cmds[1..], succeeds);
        forall i | 1 <= i < |cmds| ensures h + cmds[..i] == (h + [cmds[0]]) + cmds[1..][..i - 1] {
          assert cmds[..i] == [cmds[0]] + cmds[1..][..i - 1];
        }
      }
    }
  }

  /**
   * The ipset sets kept by the backend, by name, and what `ipset add` does to
   * them: adding to a set that does not exist is an error; adding an entry that
   * is already present is an error unless `-exist` is given, in which case the
   * sets stay as they are.
   */
  function IpsetAdd(sets: map<string, set<string>>, exist: bool, name: string, entry: string): Option<map<string, set<string>>> {
    if name !in sets then None
    else if entry in sets[name] && !exist then None
    else Some(sets[name := sets[name] + {entry}])
  }

  /**
   * With `-exist`, adding an entry to an existing set succeeds however many
   * times it is repeated, and a repeat changes nothing; without it, the repeat fails.
   */
  lemma IpsetAddExistIdempotent(sets: map<string, set<string>>, name: string, entry: string)
    requires name in sets
    ensures IpsetAdd(sets, true, name, entry).Some?
    ensures var once := IpsetAdd(sets, true, name, entry).value;
      IpsetAdd(once, true, name, entry) == Some(once) && entry in once[name]
    ensures var once := IpsetAdd(sets, true, name, entry).value;
      IpsetAdd(once, false, name, entry).None?
  {
    var once := IpsetAdd(sets, true, name, entry).value;
    assert once[name] + {entry} == once[name];
    assert once[name := once[name]] == once;
  }

  /**
   * The ipset sets left by a command history, starting from the sets `init`
   * that existed before it (those kept across a restart): `ipset create <set> …`
   * creates an empty set that does not exist yet, `ipset -exist add <set> <entry>`
   * adds to an existing set as IpsetAdd says; every other command leaves the
   * sets alone.
   */
  function IpsetSets(init: map<string, set<string>>, h: seq<Command>): map<string, set<string>>
    decreases |h|
  {
    if h == [] then init
    else
      var sets := IpsetSets(init, h[..|h| - 1]);
      var c := h[|h| - 1];
      if c.program != "ipset" then sets
      else if |c.args| >= 2 && c.args[0] == "create" then
        (if c.args[1] in sets then sets else sets[c.args[1] := {}])
      else if |c.args| == 4 && c.args[0] == "-exist" && c.args[1] == "add" then
        match IpsetAdd(sets, true, c.args[2], c.args[3])
        case None => sets
        case Some(next) => next
      else sets
  }

  /** `ipset -exist add <set> <entry>`. */
  function IpsetExistAdd(name: string, entry: string): (c: Command)
    ensures c.program == "ipset" && |c.args| == 4 && c.args[..2] == ["-exist", "add"]
    ensures c.args[2] == name && c.args[3] == entry
  {
    Command("ipset", ["-exist", "add", name, entry])
  }

  /**
   * The success of every `ipset -exist add` agrees with the ipset semantics
   * over the sets that existed before (`init`) and those the history has
   * created and filled.
   */
  ghost predicate IpsetBacked(init: map<string, set<string>>, succeeds: (seq<Command>, Command) -> bool) {
    forall h, name, entry :: succeeds(h, IpsetExistAdd(name, entry)) == IpsetAdd(IpsetSets(init, h), true, name, entry).Some?
  }

  /**
   * Against an ipset-backed host, an `ipset -exist add` that succeeded leaves
   * the entry in its set, and running it again straight away succeeds too.
   */
  lemma IpsetAddRepeat(init: map<string, set<string>>, succeeds: (seq<Command>, Command) -> bool,
                       h: seq<Command>, name: string, entry: string)
    requires IpsetBacked(init, succeeds)
    requires succeeds(h, IpsetExistAdd(name, entry))
    ensures var h2 := h + [IpsetExistAdd(name, entry)];
      name in IpsetSets(init, h2) && entry in IpsetSets(init, h2)[name] && succeeds(h2, IpsetExistAdd(name, entry))
  {
    var c := IpsetExistAdd(name, entry);
    var h2 := h + [c];
    assert h2[..|h2| - 1] == h && h2[|h2| - 1] == c;
    IpsetAddExistIdempotent(IpsetSets(init, h), name, entry);
    assert IpsetSets(init, h2) == IpsetAdd(IpsetSets(init, h), true, name, entry).value;
  }

  /**
   * One more command never removes a set, and an `ipset -exist add` creates
   * none either.
   */
  lemma IpsetSetsStep(init: map<string, set<string>>, h: seq<Command>, c: Command)
    ensures IpsetSets(init, h).Keys <= IpsetSets(init, h + [c]).Keys
    ensures c.program == "ipset" && |c.args| == 4 && c.args[..2] == ["-exist", "add"] ==>
      IpsetSets(init, h + [c]).Keys == IpsetSets(init, h).Keys
  {
    var h2 := h + [c];
    assert h2[..|h2| - 1] == h && h2[|h2| - 1] == c;
    if c.program == "ipset" && |c.args| == 4 && c.args[..2] == ["-exist", "add"] {
      assert c.args[0] == "-exist" && c.args[1] == "add";
    }
  }

  /** Sets only accumulate: every set of a history is still there after more commands. */
  lemma {:induction false} IpsetSetsGrow(init: map<string, set<string>>, h: seq<Command>, more: seq<Command>)
    ensures IpsetSets(init, h).Keys <= IpsetSets(init, h + more).Keys
    decreases |more|
  {
    if more == [] {
      assert h + more == h;
    } else {
      var front := more[..|more| - 1];
      IpsetSetsGrow(init, h, front);
      IpsetSetsStep(init, h + front, more[|more| - 1]);
      assert h + more == (h + front) + [more[|more| - 1]];
    }
  }
}
