/**
 * The per-file pipeline: reading what was appended to a log file since the
 * cursor, classifying each line against the file's accept and reject patterns,
 * and adding the resulting address or network to the matching ipset set.
 */
module Processor {
  import opened Wrappers
  import opened Strings
  import opened Mask
  import opened IPv4
  import opened Host
  import opened Config

  // ---------------------------------------------------------------------------
  // Classification of one line
  // ---------------------------------------------------------------------------

  /** The index of the first expression of `rs` that matches `line`, |rs| when none does. */
  function FirstMatch(rs: seq<Regexp>, find: Finder, line: string): (k: nat)
    ensures k <= |rs|
    ensures forall j :: 0 <= j < k ==> find(rs[j], line).None?
    ensures k < |rs| ==> find(rs[k], line).Some?
    decreases |rs|
  {
    if rs == [] || find(rs[0], line).Some? then 0
    else 1 + FirstMatch(rs[1..], find, line)
  }

  /** What the patterns make of a line, with the submatches of the pattern that decided it. */
  datatype Classification = Accepted(groups: seq<string>) | Rejected(groups: seq<string>) | NoMatch

  /**
   * Accept patterns are tried first, in order, then reject patterns, in order;
   * the first pattern that matches decides.
   */
  function Classify(accepts: seq<Regexp>, rejects: seq<Regexp>, find: Finder, line: string): (c: Classification)
    ensures c.Accepted? <==> exists i :: 0 <= i < |accepts| && find(accepts[i], line).Some?
    ensures c.Rejected? <==>
      (forall i :: 0 <= i < |accepts| ==> find(accepts[i], line).None?) &&
      (exists j :: 0 <= j < |rejects| && find(rejects[j], line).Some?)
    ensures c.Accepted? ==> exists i :: 0 <= i < |accepts| && find(accepts[i], line) == Some(c.groups) &&
                                        (forall j :: 0 <= j < i ==> find(accepts[j], line).None?)
    ensures c.Rejected? ==> exists i :: 0 <= i < |rejects| && find(rejects[i], line) == Some(c.groups) &&
                                        (forall j :: 0 <= j < i ==> find(rejects[j], line).None?)
  {
    var i := FirstMatch(accepts, find, line);
    if i < |accepts| then Accepted(find(accepts[i], line).value)
    else
      var j := FirstMatch(rejects, find, line);
      if j < |rejects| then Rejected(find(rejects[j], line).value) else NoMatch
  }

  // ---------------------------------------------------------------------------
  // Directives
  // ---------------------------------------------------------------------------

  /** The full name of one of the namespace's sets: Name + "-" + setName. */
  function SetName(name: string, setName: string): (r: string)
    ensures |r| == |name| + 1 + |setName|
    ensures r[..|name| + 1] == name + "-" && r[|name| + 1..] == setName
  {
    name + "-" + setName
  }

  /** exec.Command("ipset", "-exist", "add", fwName, ip) */
  function AddCommand(name: string, setName: string, entry: string): (c: Command)
    ensures c.program == "ipset" && |c.args| == 4 && c.args[..2] == ["-exist", "add"]
    ensures c.args[2] == SetName(name, setName) && c.args[3] == entry
  {
    IpsetExistAdd(SetName(name, setName), entry)
  }

  /**
   * The reject path on an address: pack it big-endian into a uint32, keep its
   * top `bitLen` bits, and split it into bytes again. The bytes pack back to
   * exactly the masked word, so masking is the only change. None stands for
   * the panic on a mask length outside [0, 32].
   */
  function MaskOctets(ip: Octets, bitLen: int): (r: Option<Octets>)
    ensures r.Some? <==> 0 <= bitLen <= 32
    ensures r.Some? ==> ToUint32(r.value) == MaskAddress(ToUint32(ip), bitLen).value
  {
    match MaskAddress(ToUint32(ip), bitLen)
    case None => None
    case Some(num) => Some(FromUint32(num))
  }

  /**
   * The network a rejected capture stands for. None stands for the panics: a
   * capture that is not an IPv4 address, or a mask length outside [0, 32].
   */
  function RejectNetwork(capture: string, bitLen: int): (r: Option<Octets>)
    ensures r.Some? <==> ParseIPv4(capture).Some? && 0 <= bitLen <= 32
  {
    match ParseIPv4(capture)
    case None => None
    case Some(ip) => MaskOctets(ip, bitLen)
  }

  /** What handling one line does to the backend. */
  datatype Action = Skip | Add(command: Command) | Panic

  /**
   * matchAndProcessIP's decision for one line: an accepted capture is added to
   * the accept set as a /32 host, a rejected capture is added to the reject set
   * as its masked network; `match[1]` on a match without a group panics.
   */
  function LineAction(cfg: Config, path: string, find: Finder, line: string): (a: Action)
    ensures a.Add? ==> |a.command.args| == 4 && a.command == IpsetExistAdd(a.command.args[2], a.command.args[3])
    ensures a.Add? ==> a.command.args[2] == SetName(cfg.name, "accept") || a.command.args[2] == SetName(cfg.name, "reject")
  {
    match Classify(Patterns(cfg.acceptRegexps, path), Patterns(cfg.rejectRegexps, path), find, line)
    case NoMatch => Skip
    case Accepted(groups) =>
      if |groups| < 2 then Panic
      else Add(AddCommand(cfg.name, "accept", groups[1] + "/32"))
    case Rejected(groups) =>
      if |groups| < 2 then Panic
      else
        match RejectNetwork(groups[1], cfg.rejectBitLen)
        case None => Panic
        case Some(net) => Add(AddCommand(cfg.name, "reject", FormatIPv4(net) + "/" + FormatNat(cfg.rejectBitLen)))
  }

  /** A line that no pattern matches causes nothing, and only such a line. */
  lemma SkipIffNoMatch(cfg: Config, path: string, find: Finder, line: string)
    ensures LineAction(cfg, path, find, line) == Skip <==>
      (forall i :: 0 <= i < |Patterns(cfg.acceptRegexps, path)| ==> find(Patterns(cfg.acceptRegexps, path)[i], line).None?) &&
      (forall j :: 0 <= j < |Patterns(cfg.rejectRegexps, path)| ==> find(Patterns(cfg.rejectRegexps, path)[j], line).None?)
  {
  }

  /**
   * A line that some accept pattern matches is never rejected: it is added to
   * the accept set, as a /32 of what the first matching accept pattern
   * captured, or the missing group panics.
   */
  lemma AcceptPrecedence(cfg: Config, path: string, find: Finder, line: string, i: nat)
    requires i < |Patterns(cfg.acceptRegexps, path)|
    requires find(Patterns(cfg.acceptRegexps, path)[i], line).Some?
    ensures LineAction(cfg, path, find, line).Skip? == false
    ensures LineAction(cfg, path, find, line).Add? ==>
      exists k, groups :: 0 <= k <= i && find(Patterns(cfg.acceptRegexps, path)[k], line) == Some(groups) && |groups| >= 2 &&
        (forall j :: 0 <= j < k ==> find(Patterns(cfg.acceptRegexps, path)[j], line).None?) &&
        LineAction(cfg, path, find, line).command == AddCommand(cfg.name, "accept", groups[1] + "/32")
  {
  }

  /**
   * Handling a line panics exactly when the deciding pattern has no group,
   * or a rejected capture is not an IPv4 address, or the mask length is
   * outside [0, 32].
   */
  lemma PanicIff(cfg: Config, path: string, find: Finder, line: string)
    ensures var c := Classify(Patterns(cfg.acceptRegexps, path), Patterns(cfg.rejectRegexps, path), find, line);
      LineAction(cfg, path, find, line) == Panic <==>
        (c.Accepted? && |c.groups| < 2) ||
        (c.Rejected? && (|c.groups| < 2 || ParseIPv4(c.groups[1]).None? || cfg.rejectBitLen < 0 || cfg.rejectBitLen > 32))
  {
  }

  /**
   * A rejected line that does not panic adds a network to the reject set:
   * the entry is the network in dotted decimal, which reads back as the same
   * network, then "/" and the mask length; the network keeps exactly the top
   * `rejectBitLen` bits of the captured address.
   */
  lemma RejectEntryNetwork(cfg: Config, path: string, find: Finder, line: string)
    requires Classify(Patterns(cfg.acceptRegexps, path), Patterns(cfg.rejectRegexps, path), find, line).Rejected?
    requires LineAction(cfg, path, find, line) != Panic
    ensures var g := Classify(Patterns(cfg.acceptRegexps, path), Patterns(cfg.rejectRegexps, path), find, line).groups;
      |g| >= 2 && ParseIPv4(g[1]).Some? && 0 <= cfg.rejectBitLen <= 32 &&
      var ip := ParseIPv4(g[1]).value;
      var net := RejectNetwork(g[1], cfg.rejectBitLen).value;
      LineAction(cfg, path, find, line) == Add(AddCommand(cfg.name, "reject", FormatIPv4(net) + "/" + FormatNat(cfg.rejectBitLen))) &&
      ParseIPv4(FormatIPv4(net)) == Some(net) &&
      forall i: bv32 :: i < 32 ==> (Bit(ToUint32(net), i) <==> i >= 32 - cfg.rejectBitLen as bv32 && Bit(ToUint32(ip), i))
  {
    var g := Classify(Patterns(cfg.acceptRegexps, path), Patterns(cfg.rejectRegexps, path), find, line).groups;
    PanicIff(cfg, path, find, line);
    assert |g| >= 2 && ParseIPv4(g[1]).Some? && 0 <= cfg.rejectBitLen <= 32;
    var ip := ParseIPv4(g[1]).value;
    var net := RejectNetwork(g[1], cfg.rejectBitLen).value;
    assert ToUint32(net) == MaskAddress(ToUint32(ip), cfg.rejectBitLen).value;
    ParseFormatIPv4(net);
  }

  /**
   * Every add is an `ipset -exist add`: against an ipset-backed host, once it
   * has succeeded its entry is in the set and handling the same line again
   * straight away succeeds too.
   */
  lemma RepeatedAddSucceeds(cfg: Config, path: string, find: Finder, line: string,
                            init: map<string, set<string>>, succeeds: (seq<Command>, Command) -> bool, h: seq<Command>)
    requires IpsetBacked(init, succeeds)
    requires LineAction(cfg, path, find, line).Add?
    requires succeeds(h, LineAction(cfg, path, find, line).command)
    ensures var c := LineAction(cfg, path, find, line).command;
      c.args[2] in IpsetSets(init, h + [c]) && c.args[3] in IpsetSets(init, h + [c])[c.args[2]] && succeeds(h + [c], c)
  {
    var c := LineAction(cfg, path, find, line).command;
    IpsetAddRepeat(init, succeeds, h, c.args[2], c.args[3]);
  }

  /** With a 32-bit mask a rejected address is kept whole. */
  lemma MaskOctetsFull(ip: Octets)
    ensures MaskOctets(ip, 32) == Some(ip)
  {
    assert FromUint32(ToUint32(ip)) == ip;
  }

  /**
   * A rejected capture with a 24-bit mask becomes its /24 network: whatever
   * matcher finds the address 10.1.2.77 as the group of the file's only
   * reject pattern, the line adds 10.1.2.0/24 to the reject set.
   */
  lemma RejectEntry24(find: Finder, line: string)
    requires find(Regexp("r"), line) == Some(["from 10.1.2.77", "10.1.2.77"])
    ensures LineAction(Config(map[], map[], map["log" := [Regexp("r")]], "fw", "", 24, 60), "log", find, line)
      == Add(Command("ipset", ["-exist", "add", "fw-reject", "10.1.2.0/24"]))
  {
    var cfg := Config(map[], map[], map["log" := [Regexp("r")]], "fw", "", 24, 60);
    assert Patterns(cfg.acceptRegexps, "log") == [];
    assert Patterns(cfg.rejectRegexps, "log") == [Regexp("r")];
    assert Classify([], [Regexp("r")], find, line) == Rejected(["from 10.1.2.77", "10.1.2.77"]);
    var net := Octets(10, 1, 2, 0);
    assert RejectNetwork("10.1.2.77", 24) == Some(net) by {
      var ip := Octets(10, 1, 2, 77);
      Formats24();
      ParseFormatIPv4(ip);
      assert ToUint32(ip) == 0x0A01_024D;
      assert MaskAddress(0x0A01_024D, 24) == Some(0x0A01_0200);
      assert FromUint32(0x0A01_0200) == net;
    }
    assert AddCommand("fw", "reject", FormatIPv4(net) + "/" + FormatNat(24)) ==
      Command("ipset", ["-exist", "add", "fw-reject", "10.1.2.0/24"]) by {
      Formats24();
      Entry24();
    }
  }

  /** The decimal texts of the /24 example. */
  lemma Formats24()
    ensures FormatIPv4(Octets(10, 1, 2, 77)) == "10.1.2.77"
    ensures FormatIPv4(Octets(10, 1, 2, 0)) == "10.1.2.0"
    ensures FormatNat(24) == "24"
  {
    Digits24();
    var ip := Octets(10, 1, 2, 77);
    var net := Octets(10, 1, 2, 0);
    assert ip.a as nat == 10 && ip.b as nat == 1 && ip.c as nat == 2 && ip.d as nat == 77 && net.d as nat == 0;
    assert FormatIPv4(ip) == "10" + "." + "1" + "." + "2" + "." + "77";
    assert FormatIPv4(net) == "10" + "." + "1" + "." + "2" + "." + "0";
  }

  /** The decimal texts of the bytes and mask length of the /24 example. */
  lemma Digits24()
    ensures FormatNat(10) == "10" && FormatNat(1) == "1" && FormatNat(2) == "2"
    ensures FormatNat(77) == "77" && FormatNat(0) == "0" && FormatNat(24) == "24"
  {
    assert FormatNat(1) == "1" && FormatNat(7) == "7" && FormatNat(2) == "2";
  }

  /** The set and entry texts of the /24 example. */
  lemma Entry24()
    ensures "10.1.2.0" + "/" + "24" == "10.1.2.0/24"
    ensures SetName("fw", "reject") == "fw-reject"
  {
  }

  /** addIPToSet: runs the ipset add; a failure is fatal. */
  method AddIPToSet(cfg: Config, setName: string, ip: string, host: Host) returns (ok: bool)
    modifies host`issued
    ensures host.issued == old(host.issued) + [AddCommand(cfg.name, setName, ip)]
    ensures ok == host.succeeds(old(host.issued), AddCommand(cfg.name, setName, ip))
  {
    ok := host.Run(AddCommand(cfg.name, setName, ip));
  }

  /**
   * matchAndProcessIP: two first-match loops with early return. Returns false
   * when the process ends (a panic or a failed add).
   */
  method MatchAndProcessIP(cfg: Config, path: string, find: Finder, line: string, host: Host) returns (ok: bool)
    modifies host`issued
    ensures LineAction(cfg, path, find, line) == Skip ==> ok && host.issued == old(host.issued)
    ensures LineAction(cfg, path, find, line) == Panic ==> !ok && host.issued == old(host.issued)
    ensures LineAction(cfg, path, find, line).Add? ==>
      var c := LineAction(cfg, path, find, line).command;
      host.issued == old(host.issued) + [c] && ok == host.succeeds(old(host.issued), c)
  {
    var accepts := Patterns(cfg.acceptRegexps, path);
    var i := 0;
    while i < |accepts|
      invariant 0 <= i <= |accepts|
      invariant forall j :: 0 <= j < i ==> find(accepts[j], line).None?
    {
      var m := find(accepts[i], line);
      if m.Some? {
        assert FirstMatch(accepts, find, line) == i;
        if |m.value| < 2 {
          return false;
        }
        ok := AddIPToSet(cfg, "accept", m.value[1] + "/32", host);
        return;
      }
      i := i + 1;
    }
    assert FirstMatch(accepts, find, line) == |accepts|;
    var rejects := Patterns(cfg.rejectRegexps, path);
    i := 0;
    while i < |rejects|
      invariant 0 <= i <= |rejects|
      invariant forall j :: 0 <= j < i ==> find(rejects[j], line).None?
    {
      var m := find(rejects[i], line);
      if m.Some? {
        assert FirstMatch(rejects, find, line) == i;
        if |m.value| < 2 {
          return false;
        }
        var net := RejectNetwork(m.value[1], cfg.rejectBitLen);
        if net.None? {
          return false;
        }
        ok := AddIPToSet(cfg, "reject", FormatIPv4(net.value) + "/" + FormatNat(cfg.rejectBitLen), host);
        return;
      }
      i := i + 1;
    }
    assert FirstMatch(rejects, find, line) == |rejects|;
    ok := true;
  }
}
