/**
 * The per-file read of processor.go's ProcessFileChange: the cursor over a
 * log file, the scanning loop, and what handling the scanned lines does.
 */
module Reader {
  import opened Wrappers
  import opened Host
  import opened Config
  import opened Scanner
  import opened Processor

  // ---------------------------------------------------------------------------
  // Handling the appended lines
  // ---------------------------------------------------------------------------

  /**
   * What handling lines does, from command history `h`: how many lines were
   * handled, the ipset commands run, and whether the process is still alive.
   */
  datatype Trace = Trace(consumed: nat, issued: seq<Command>, alive: bool)

  /**
   * Handling `lines` in order, each as matchAndProcessIP does. A panic or a
   * failed add is fatal and ends the process after its line.
   */
  function Handle(act: string -> Action, succeeds: (seq<Command>, Command) -> bool,
                  h: seq<Command>, lines: seq<string>): (t: Trace)
    ensures t.consumed <= |lines|
    ensures t.alive ==> t.consumed == |lines|
    ensures !t.alive ==> t.consumed > 0
    decreases |lines|
  {
    if lines == [] then Trace(0, [], true)
    else
      match act(lines[0])
      case Skip =>
        var t := Handle(act, succeeds, h, lines[1..]);
        Trace(t.consumed + 1, t.issued, t.alive)
      case Panic => Trace(1, [], false)
      case Add(c) =>
        if !succeeds(h, c) then Trace(1, [c], false)
        else
          var t := Handle(act, succeeds, h + [c], lines[1..]);
          Trace(t.consumed + 1, [c] + t.issued, t.alive)
  }

  /** The add commands the lines call for, in order. */
  function Adds(act: string -> Action, lines: seq<string>): seq<Command>
    decreases |lines|
  {
    if lines == [] then []
    else
      match act(lines[0])
      case Add(c) => [c] + Adds(act, lines[1..])
      case _ => Adds(act, lines[1..])
  }

  /** The commands run are exactly the adds the handled lines call for, in order. */
  lemma {:induction false} HandleAdds(act: string -> Action, succeeds: (seq<Command>, Command) -> bool,
                                      h: seq<Command>, lines: seq<string>)
    ensures var t := Handle(act, succeeds, h, lines);
      t.issued == Adds(act, lines[..t.consumed])
    decreases |lines|
  {
    if lines != [] {
      var t := Handle(act, succeeds, h, lines);
      var handled := lines[..t.consumed];
      assert handled[0] == lines[0];
      match act(lines[0])
      case Skip =>
        HandleAdds(act, succeeds, h, lines[1..]);
        assert handled[1..] == lines[1..][..t.consumed - 1];
      case Panic =>
        assert handled[1..] == [];
      case Add(c) =>
        if !succeeds(h, c) {
          assert handled[1..] == [];
        } else {
          HandleAdds(act, succeeds, h + [c], lines[1..]);
          assert handled[1..] == lines[1..][..t.consumed - 1];
        }
    }
  }

  /** The first `n` of `cmds`, run one after another from history `h`, all succeeded. */
  predicate SucceededUpTo(succeeds: (seq<Command>, Command) -> bool, h: seq<Command>, cmds: seq<Command>, n: int)
    requires n <= |cmds|
  {
    forall i :: 0 <= i < n ==> succeeds(h + cmds[..i], cmds[i])
  }

  /** A success followed by successes from the history it leaves is a run of successes. */
  lemma SucceededCons(succeeds: (seq<Command>, Command) -> bool, h: seq<Command>, c: Command, cmds: seq<Command>, n: int)
    requires n <= |cmds| && succeeds(h, c) && SucceededUpTo(succeeds, h + [c], cmds, n)
    ensures SucceededUpTo(succeeds, h, [c] + cmds, n + 1)
  {
    var all := [c] + cmds;
    forall i | 0 <= i < n + 1
      ensures succeeds(h + all[..i], all[i])
    {
      if i == 0 {
        assert h + all[..0] == h;
      } else {
        assert all[..i] == [c] + cmds[..i - 1];
        assert h + all[..i] == (h + [c]) + cmds[..i - 1];
      }
    }
  }

  /**
   * Every command run succeeded, from the history before it, except that the
   * last one failed when the process ended on it.
   */
  lemma {:induction false} HandleSucceeded(act: string -> Action, succeeds: (seq<Command>, Command) -> bool,
                                           h: seq<Command>, lines: seq<string>)
    ensures var t := Handle(act, succeeds, h, lines);
      SucceededUpTo(succeeds, h, t.issued, if t.alive then |t.issued| else |t.issued| - 1)
    decreases |lines|
  {
    if lines != [] {
      match act(lines[0])
      case Skip =>
        HandleSucceeded(act, succeeds, h, lines[1..]);
      case Panic =>
      case Add(c) =>
        if succeeds(h, c) {
          var r := Handle(act, succeeds, h + [c], lines[1..]);
          HandleSucceeded(act, succeeds, h + [c], lines[1..]);
          SucceededCons(succeeds, h, c, r.issued, if r.alive then |r.issued| else |r.issued| - 1);
        }
    }
  }

  /**
   * A process that ended did so on the last line it handled: that line
   * panicked, or it called for the last command run and that command failed.
   */
  lemma {:induction false} HandleStop(act: string -> Action, succeeds: (seq<Command>, Command) -> bool,
                                      h: seq<Command>, lines: seq<string>)
    ensures var t := Handle(act, succeeds, h, lines);
      !t.alive ==>
        var last := lines[t.consumed - 1];
        act(last).Panic? ||
        (t.issued != [] && act(last) == Add(t.issued[|t.issued| - 1]) &&
         !succeeds(h + t.issued[..|t.issued| - 1], t.issued[|t.issued| - 1]))
    decreases |lines|
  {
    if lines != [] {
      var t := Handle(act, succeeds, h, lines);
      match act(lines[0])
      case Skip =>
        HandleStop(act, succeeds, h, lines[1..]);
        if !t.alive && t.consumed > 1 {
          assert lines[t.consumed - 1] == lines[1..][t.consumed - 2];
        }
      case Panic =>
      case Add(c) =>
        if !succeeds(h, c) {
          assert h + t.issued[..0] == h;
        } else {
          var r := Handle(act, succeeds, h + [c], lines[1..]);
          HandleStop(act, succeeds, h + [c], lines[1..]);
          if !t.alive {
            assert lines[t.consumed - 1] == lines[1..][r.consumed - 1];
            if r.issued != [] {
              assert t.issued[..|t.issued| - 1] == [c] + r.issued[..|r.issued| - 1];
              assert h + t.issued[..|t.issued| - 1] == (h + [c]) + r.issued[..|r.issued| - 1];
            }
          }
        }
    }
  }

  /**
   * Every add is an `ipset -exist add`, so against an ipset-backed host a line
   * handled twice in a row ends the process the second time only if it did
   * so the first time.
   */
  lemma RepeatedLineHarmless(cfg: Config, path: string, find: Finder, init: map<string, set<string>>,
                             succeeds: (seq<Command>, Command) -> bool, h: seq<Command>, line: string)
    requires IpsetBacked(init, succeeds)
    ensures var act := (l: string) => LineAction(cfg, path, find, l);
      Handle(act, succeeds, h, [line, line]).alive == Handle(act, succeeds, h, [line]).alive
  {
    var act := (l: string) => LineAction(cfg, path, find, l);
    assert [line, line][1..] == [line] && [line][1..] == [];
    match act(line)
    case Skip =>
    case Panic =>
    case Add(c) =>
      if succeeds(h, c) {
        RepeatedAddSucceeds(cfg, path, find, line, init, succeeds, h);
      }
  }

  /**
   * Against an ipset-backed host, lines that were handled without ending the
   * process are handled without ending it again from any later history that
   * has at least the sets of the earlier one.
   */
  lemma {:induction false} HandleSurvivesMoreSets(cfg: Config, path: string, find: Finder, init: map<string, set<string>>,
                                                  succeeds: (seq<Command>, Command) -> bool,
                                                  h1: seq<Command>, h2: seq<Command>, lines: seq<string>)
    requires IpsetBacked(init, succeeds)
    requires IpsetSets(init, h1).Keys <= IpsetSets(init, h2).Keys
    ensures var act := (l: string) => LineAction(cfg, path, find, l);
      Handle(act, succeeds, h1, lines).alive ==> Handle(act, succeeds, h2, lines).alive
    decreases |lines|
  {
    var act := (l: string) => LineAction(cfg, path, find, l);
    if lines != [] {
      match act(lines[0])
      case Skip =>
        HandleSurvivesMoreSets(cfg, path, find, init, succeeds, h1, h2, lines[1..]);
      case Panic =>
      case Add(c) =>
        if succeeds(h1, c) {
          var name, entry := c.args[2], c.args[3];
          assert c == IpsetExistAdd(name, entry);
          IpsetSetsStep(init, h1, c);
          IpsetSetsStep(init, h2, c);
          HandleSurvivesMoreSets(cfg, path, find, init, succeeds, h1 + [c], h2 + [c], lines[1..]);
        }
    }
  }

  /**
   * A batch of lines handled without ending the process can be handled again
   * right after (as when the file is read again from its start) without
   * ending it either, on an ipset-backed host: every add is an `-exist add`
   * to a set that is still there.
   */
  lemma RereadSurvives(cfg: Config, path: string, find: Finder, init: map<string, set<string>>,
                       succeeds: (seq<Command>, Command) -> bool, h: seq<Command>, lines: seq<string>)
    requires IpsetBacked(init, succeeds)
    ensures var act := (l: string) => LineAction(cfg, path, find, l);
      var first := Handle(act, succeeds, h, lines);
      first.alive ==> Handle(act, succeeds, h + first.issued, lines).alive
  {
    var act := (l: string) => LineAction(cfg, path, find, l);
    IpsetSetsGrow(init, h, Handle(act, succeeds, h, lines).issued);
    HandleSurvivesMoreSets(cfg, path, find, init, succeeds, h, h + Handle(act, succeeds, h, lines).issued, lines);
  }

  /** The cursor's move and the handling of one read, on the unread bytes `d` themselves. */
  datatype Outcome = Outcome(advanced: nat, history: seq<Command>, alive: bool)

  /**
   * The read loop of ProcessFileChange on the unread bytes `d`, from command
   * history `h`: scan a line, move the cursor past it, handle it; stop at the
   * end of the data or when handling the line ends the process. The outcome
   * is how far the cursor moved, the command history afterwards, and whether
   * the process still lives.
   */
  function ProcessData(act: string -> Action, succeeds: (seq<Command>, Command) -> bool,
                       h: seq<Command>, d: string): (o: Outcome)
    ensures h <= o.history
    ensures o.advanced == 0 <==> d == []
    decreases |d|
  {
    if d == [] then Outcome(0, h, true)
    else
      var t := ScanToken(d);
      var n := |t.0| + 1;
      match act(t.0)
      case Skip =>
        var r := ProcessData(act, succeeds, h, d[t.1..]);
        Outcome(n + r.advanced, r.history, r.alive)
      case Panic => Outcome(n, h, false)
      case Add(c) =>
        if !succeeds(h, c) then Outcome(n, h + [c], false)
        else
          var r := ProcessData(act, succeeds, h + [c], d[t.1..]);
          Outcome(n + r.advanced, r.history, r.alive)
  }

  /**
   * Reading and handling line by line is scanning all lines, handling them in
   * order, and moving the cursor past exactly the lines handled.
   */
  lemma {:induction false} ProcessDataLines(act: string -> Action, succeeds: (seq<Command>, Command) -> bool,
                                            h: seq<Command>, d: string)
    ensures var lines := ScanLines(d);
      var t := Handle(act, succeeds, h, lines);
      ProcessData(act, succeeds, h, d) == Outcome(Advance(lines[..t.consumed]), h + t.issued, t.alive)
    decreases |d|
  {
    if d == [] {
      assert h + [] == h;
    } else {
      var tok := ScanToken(d);
      var lines := ScanLines(d);
      assert lines == [tok.0] + ScanLines(d[tok.1..]);
      assert lines[0] == tok.0 && lines[1..] == ScanLines(d[tok.1..]);
      var t := Handle(act, succeeds, h, lines);
      var handled := lines[..t.consumed];
      assert Advance(handled) == |tok.0| + 1 + Advance(handled[1..]);
      match act(tok.0)
      case Skip =>
        var r := Handle(act, succeeds, h, lines[1..]);
        ProcessDataLines(act, succeeds, h, d[tok.1..]);
        TakeTail(lines, t.consumed);
      case Panic =>
        assert handled[1..] == [];
        assert h + [] == h;
      case Add(c) =>
        if !succeeds(h, c) {
          assert handled[1..] == [];
        } else {
          var r := Handle(act, succeeds, h + [c], lines[1..]);
          assert t == Trace(r.consumed + 1, [c] + r.issued, r.alive);
          ProcessDataLines(act, succeeds, h + [c], d[tok.1..]);
          TakeTail(lines, t.consumed);
          SeqAppendAssoc(h, [c], r.issued);
        }
    }
  }

  lemma TakeTail<T>(s: seq<T>, k: nat)
    requires 1 <= k <= |s|
    ensures s[..k][1..] == s[1..][..k - 1]
  {
  }

  lemma SeqAppendAssoc<T>(a: seq<T>, b: seq<T>, c: seq<T>)
    ensures (a + b) + c == a + (b + c)
  {
  }

  /**
   * One turn of the read loop: handling the first line of `d` as `act` says
   * takes the history from `hb` to `hn`; the rest of the data is then
   * processed from `hn`, unless handling the line ended the process.
   */
  lemma ProcessDataStep(act: string -> Action, succeeds: (seq<Command>, Command) -> bool,
                        hb: seq<Command>, hn: seq<Command>, d: string, alive: bool)
    requires d != []
    requires act(ScanToken(d).0).Skip? ==> alive && hn == hb
    requires act(ScanToken(d).0).Panic? ==> !alive && hn == hb
    requires act(ScanToken(d).0).Add? ==>
      hn == hb + [act(ScanToken(d).0).command] && alive == succeeds(hb, act(ScanToken(d).0).command)
    ensures var t := ScanToken(d);
      var r := ProcessData(act, succeeds, hb, d);
      var rest := ProcessData(act, succeeds, hn, d[t.1..]);
      (alive ==> r.advanced == |t.0| + 1 + rest.advanced && r.history == rest.history && r.alive == rest.alive) &&
      (!alive ==> r == Outcome(|t.0| + 1, hn, false))
  {
  }

  /**
   * The read loop's invariant survives one turn. `pd` is the read loop as a
   * function of history and unread bytes, `o` the outcome of the whole read;
   * the line read from `pos` on is handled from history `hb` to `hn`, and the
   * cursor plus what is left to move equals the read's end.
   */
  lemma ProcessDataTurn(act: string -> Action, succeeds: (seq<Command>, Command) -> bool,
                        pd: (seq<Command>, string) -> Outcome,
                        hb: seq<Command>, hn: seq<Command>, data: string, pos: nat, alive: bool,
                        o: Outcome, cursor: nat, end: nat)
    requires forall h, d {:trigger ProcessData(act, succeeds, h, d)} :: pd(h, d) == ProcessData(act, succeeds, h, d)
    requires pos < |data|
    requires act(ScanToken(data[pos..]).0).Skip? ==> alive && hn == hb
    requires act(ScanToken(data[pos..]).0).Panic? ==> !alive && hn == hb
    requires act(ScanToken(data[pos..]).0).Add? ==>
      hn == hb + [act(ScanToken(data[pos..]).0).command] && alive == succeeds(hb, act(ScanToken(data[pos..]).0).command)
    requires cursor + pd(hb, data[pos..]).advanced == end
    requires pd(hb, data[pos..]).history == o.history && pd(hb, data[pos..]).alive == o.alive
    ensures pos + ScanToken(data[pos..]).1 <= |data|
    ensures alive ==>
      var next := pd(hn, data[pos + ScanToken(data[pos..]).1..]);
      cursor + |ScanToken(data[pos..]).0| + 1 + next.advanced == end && next.history == o.history && next.alive == o.alive
    ensures !alive ==> cursor + |ScanToken(data[pos..]).0| + 1 == end && o.history == hn && !o.alive
  {
    var d := data[pos..];
    var t := ScanToken(d);
    assert d[t.1..] == data[pos + t.1..];
    ProcessDataStep(act, succeeds, hb, hn, d, alive);
    assert pd(hb, d) == ProcessData(act, succeeds, hb, d);
    assert pd(hn, d[t.1..]) == ProcessData(act, succeeds, hn, d[t.1..]);
  }

  /** Nothing is left to read: the cursor stays, nothing runs, the process lives. */
  lemma ProcessDataEnd(act: string -> Action, succeeds: (seq<Command>, Command) -> bool,
                       pd: (seq<Command>, string) -> Outcome, h: seq<Command>, d: string)
    requires forall h, d {:trigger ProcessData(act, succeeds, h, d)} :: pd(h, d) == ProcessData(act, succeeds, h, d)
    requires |d| == 0
    ensures pd(h, d) == Outcome(0, h, true)
  {
    assert pd(h, d) == ProcessData(act, succeeds, h, d);
  }

  /** The read loop as a function value, for reasoning about the loop one turn at a time. */
  lemma ProcessDatas(act: string -> Action, succeeds: (seq<Command>, Command) -> bool)
    returns (pd: (seq<Command>, string) -> Outcome)
    ensures forall h, d {:trigger ProcessData(act, succeeds, h, d)} :: pd(h, d) == ProcessData(act, succeeds, h, d)
  {
    pd := (h: seq<Command>, d: string) => ProcessData(act, succeeds, h, d);
  }

  /** The decision matchAndProcessIP makes, as a function of the line. */
  lemma LineActions(cfg: Config, path: string, find: Finder) returns (act: string -> Action)
    ensures forall l {:trigger LineAction(cfg, path, find, l)} :: act(l) == LineAction(cfg, path, find, l)
  {
    act := (l: string) => LineAction(cfg, path, find, l);
  }

  /** Processing depends on the decision function only through its values. */
  lemma {:induction false} ProcessDataAgree(act1: string -> Action, act2: string -> Action,
                                            succeeds: (seq<Command>, Command) -> bool, h: seq<Command>, d: string)
    requires forall l :: act1(l) == act2(l)
    ensures ProcessData(act1, succeeds, h, d) == ProcessData(act2, succeeds, h, d)
    decreases |d|
  {
    if d != [] {
      var t := ScanToken(d);
      ProcessDataAgree(act1, act2, succeeds, h, d[t.1..]);
      if act1(t.0).Add? {
        ProcessDataAgree(act1, act2, succeeds, h + [act1(t.0).command], d[t.1..]);
      }
    }
  }

  /** The per-file read cursor of the watcher (its `offset` variable). */
  class Cursor {
    /** The byte offset up to which the file is taken to have been read. */
    var offset: nat

    constructor ()
      ensures offset == 0
    {
      offset := 0;
    }

    /**
     * ProcessFileChange: reads the file from the cursor (from the start when
     * the file has become shorter than the cursor) and handles what it reads.
     * `file` is the file's content, None when it cannot be opened, which is
     * fatal. Returns false when the process ends.
     */
    method ProcessFileChange(cfg: Config, path: string, file: Option<string>, find: Finder, host: Host) returns (ok: bool)
      modifies this, host`issued
      ensures file.None? ==> !ok && offset == old(offset) && host.issued == old(host.issued)
      ensures file.Some? ==>
        var start := StartOffset(|file.value|, old(offset));
        var o := ProcessData((l: string) => LineAction(cfg, path, find, l), host.succeeds, old(host.issued), file.value[start..]);
        ok == o.alive && host.issued == o.history && offset == start + o.advanced
    {
      if file.None? {
        return false;
      }
      var content := file.value;
      if |content| < offset {
        offset := 0;
      }
      ghost var act := LineActions(cfg, path, find);
      ProcessDataAgree(act, (l: string) => LineAction(cfg, path, find, l), host.succeeds, host.issued, content[offset..]);
      ghost var pd := ProcessDatas(act, host.succeeds);
      assert pd(host.issued, content[offset..]) == ProcessData(act, host.succeeds, host.issued, content[offset..]);
      ok := ScanFrom(cfg, path, find, act, pd, content[offset..], host, host.issued, offset);
    }

    /** matchAndProcessIP on one line, stated through the decision function `act`. */
    static method HandleLine(cfg: Config, path: string, find: Finder, ghost act: string -> Action, line: string, host: Host)
      returns (alive: bool)
      requires forall l {:trigger LineAction(cfg, path, find, l)} :: act(l) == LineAction(cfg, path, find, l)
      modifies host`issued
      ensures act(line).Skip? ==> alive && host.issued == old(host.issued)
      ensures act(line).Panic? ==> !alive && host.issued == old(host.issued)
      ensures act(line).Add? ==>
        host.issued == old(host.issued) + [act(line).command] && alive == host.succeeds(old(host.issued), act(line).command)
    {
      alive := MatchAndProcessIP(cfg, path, find, line, host);
    }

    /**
     * The scanning loop of ProcessFileChange over the unread bytes `data`:
     * scan a line, move the cursor past it (len(line) + 1), then handle it;
     * `act` is matchAndProcessIP's decision on a line.
     */
    method ScanFrom(cfg: Config, path: string, find: Finder, ghost act: string -> Action,
                    ghost pd: (seq<Command>, string) -> Outcome, data: string, host: Host,
                    ghost h0: seq<Command>, ghost start: nat)
      returns (ok: bool)
      requires forall l {:trigger LineAction(cfg, path, find, l)} :: act(l) == LineAction(cfg, path, find, l)
      requires forall h, d {:trigger ProcessData(act, host.succeeds, h, d)} :: pd(h, d) == ProcessData(act, host.succeeds, h, d)
      requires h0 == host.issued && start == offset
      modifies this, host`issued
      ensures ok == pd(h0, data).alive
      ensures host.issued == pd(h0, data).history
      ensures offset == start + pd(h0, data).advanced
    {
      ghost var full := pd(h0, data);
      ghost var rest := full;
      var pos := 0;
      while pos < |data|
        invariant 0 <= pos <= |data|
        invariant rest == pd(host.issued, data[pos..])
        invariant offset + rest.advanced == start + full.advanced
        invariant rest.history == full.history
        invariant rest.alive == full.alive
        decreases |data| - pos
      {
        var token := ScanToken(data[pos..]);
        var line := token.0;
        ghost var before := host.issued;
        ghost var cursor := offset;
        ghost var at := pos;
        offset := offset + |line| + 1;
        pos := pos + token.1;
        var alive := HandleLine(cfg, path, find, act, line, host);
        ProcessDataTurn(act, host.succeeds, pd, before, host.issued, data, at, alive, full, cursor, start + full.advanced);
        if !alive {
          return false;
        }
        rest := pd(host.issued, data[pos..]);
      }
      ProcessDataEnd(act, host.succeeds, pd, host.issued, data[pos..]);
      ok := true;
    }
  }
}
