/**
 * Reading `scontrol show node`: one record per `NodeName=` line, filled in by the
 * `Partitions=`, `CfgTRES=`, `AllocTRES=` and (in the current revision) `State=` lines that
 * follow it. Both revisions of the reporter share this parser; they differ in how TRES values
 * are read and in whether the state is kept.
 */
module NodeInfo {
  import opened Wrappers
  import opened PyStr
  import opened Dicts
  import opened Tres

  /** nodestat-og.py is the original script, nodestat.py the current one. */
  datatype Revision = Original | Current

  /** What has been read about one node so far; a `NodeName` line starts an empty record. */
  datatype Record = Record(partition: Option<string>, cfg: Option<Tres>, alloc: Option<Tres>, state: Option<string>)

  const Blank: Record := Record(None, None, None, None)

  /** What one line of the listing does. */
  datatype Event =
    | Open(name: string)
    | SetPartition(partition: string)
    | SetCfg(cfg: Tres)
    | SetAlloc(alloc: Tres)
    | SetState(state: string)
    | Skip

  /** An event that writes into the record of the node being read. */
  predicate Attribute(e: Event) {
    !e.Open? && !e.Skip?
  }

  /** The `CfgTRES` record: defaults filled in by the current revision, raw in the original. */
  function CfgOf(rev: Revision, t: string): Tres {
    if rev == Current then TresOf(t) else RawTresOf(t)
  }

  /** The `AllocTRES` record: all zero for an empty list; both revisions fill in the defaults. */
  function AllocOf(rev: Revision, t: string): Tres {
    if t == "" then Zero
    else if rev == Current then TresOf(t)
    else WithDefaults(RawTresOf(t))
  }

  /** Reading the line does not raise: the `split('=')[1]` it takes exists and its TRES list
      holds `key=value` items. */
  predicate Readable(rev: Revision, raw: string) {
    var line := Strip(raw);
    if StartsWith(line, "NodeName") then |Split(line, "=")| >= 2
    else if StartsWith(line, "Partitions") then |Split(line, "=")| >= 2
    else if StartsWith(line, "CfgTRES") then WellFormed(Replace(line, "CfgTRES=", ""))
    else if StartsWith(line, "AllocTRES") then
      var t := Replace(line, "AllocTRES=", "");
      t == "" || WellFormed(t)
    else if rev == Current && StartsWith(line, "State") then |Split(line, "=")| >= 2
    else true
  }

  /** The `if`/`elif` chain of `get_slurm_node_info` on one stripped line. The original
      revision has no `State` branch. */
  function EventOf(rev: Revision, raw: string): Event {
    var line := Strip(raw);
    if StartsWith(line, "NodeName") then Open(Before(Piece(line, "=", 1), " "))
    else if StartsWith(line, "Partitions") then SetPartition(Piece(line, "=", 1))
    else if StartsWith(line, "CfgTRES") then SetCfg(CfgOf(rev, Replace(line, "CfgTRES=", "")))
    else if StartsWith(line, "AllocTRES") then SetAlloc(AllocOf(rev, Replace(line, "AllocTRES=", "")))
    else if rev == Current && StartsWith(line, "State") then SetState(Strip(Before(Piece(line, "=", 1), " ")))
    else Skip
  }

  /** The events of the lines, in order. */
  function Events(rev: Revision, lines: seq<string>): (es: seq<Event>)
    ensures |es| == |lines|
  {
    if lines == [] then []
    else Events(rev, lines[..|lines| - 1]) + [EventOf(rev, lines[|lines| - 1])]
  }

  /** Some event opens a node. */
  predicate HasOpen(es: seq<Event>) {
    exists i :: 0 <= i < |es| && es[i].Open?
  }

  /** Every attribute line comes after some `NodeName` line, so `node_name` is bound when it is
      used. */
  predicate Playable(es: seq<Event>) {
    forall i :: 0 <= i < |es| && Attribute(es[i]) ==> HasOpen(es[..i])
  }

  /** The listing can be read without raising. */
  predicate Parsable(rev: Revision, lines: seq<string>) {
    (forall i :: 0 <= i < |lines| ==> Readable(rev, lines[i])) && Playable(Events(rev, lines))
  }

  /** The dictionary built so far and the node whose lines are being read. */
  datatype Parser = Parser(info: Dict<Record>, current: Option<string>)

  /** The parser is consistent: a dictionary in key order, and the current node is in it. */
  ghost predicate Good(p: Parser) {
    Valid(p.info) && (p.current.Some? ==> p.current.value in p.info.vals)
  }

  /** The record after one attribute line. */
  function Update(r: Record, e: Event): Record
    requires Attribute(e)
  {
    match e
    case SetPartition(x) => r.(partition := Some(x))
    case SetCfg(t) => r.(cfg := Some(t))
    case SetAlloc(t) => r.(alloc := Some(t))
    case SetState(x) => r.(state := Some(x))
  }

  /** One line's effect: `NodeName` starts a fresh record (at the end of the dictionary, or in
      its old place if the name was seen before) and makes it current; an attribute line
      writes into the current record; any other line changes nothing. An attribute line with
      no current node would raise in the source; `Parsable` rules it out, and here it changes
      nothing. */
  function Apply(p: Parser, e: Event): (q: Parser)
    requires Good(p)
    ensures Good(q)
  {
    match e
    case Open(n) => Parser(Put(p.info, n, Blank), Some(n))
    case Skip => p
    case _ =>
      if p.current.None? then p
      else
        var n := p.current.value;
        Parser(Put(p.info, n, Update(p.info.vals[n], e)), p.current)
  }

  /** The parser after the given events. */
  function Play(es: seq<Event>): (p: Parser)
    ensures Good(p)
  {
    if es == [] then Parser(Empty(), None)
    else Apply(Play(es[..|es| - 1]), es[|es| - 1])
  }

  /** A node is current exactly when some event opened one. */
  lemma {:induction false} PlayCurrent(es: seq<Event>)
    ensures Play(es).current.Some? <==> HasOpen(es)
  {
    if es != [] {
      var init, e := es[..|es| - 1], es[|es| - 1];
      PlayCurrent(init);
      assert HasOpen(es) <==> HasOpen(init) || e.Open? by {
        if HasOpen(es) && !e.Open? {
          var i :| 0 <= i < |es| && es[i].Open?;
          assert init[i] == es[i];
        }
        if HasOpen(init) {
          var i :| 0 <= i < |init| && init[i].Open?;
          assert es[i] == init[i];
        }
      }
    }
  }

  /** `get_slurm_node_info` as a value: the dictionary after every line. */
  function Run(rev: Revision, lines: seq<string>): Dict<Record>
    requires Parsable(rev, lines)
  {
    Play(Events(rev, lines)).info
  }

  lemma {:induction false} EventsPrefix(rev: Revision, lines: seq<string>, k: nat)
    requires k <= |lines|
    ensures Events(rev, lines[..k]) == Events(rev, lines)[..k]
    decreases |lines|
  {
    if k < |lines| {
      var init := lines[..|lines| - 1];
      assert init[..k] == lines[..k];
      EventsPrefix(rev, init, k);
    } else {
      assert lines[..k] == lines;
    }
  }

  /** Reading line `i` extends the run over the lines before it by one step. */
  lemma PlayStep(rev: Revision, lines: seq<string>, i: nat)
    requires i < |lines|
    ensures Play(Events(rev, lines[..i + 1])) == Apply(Play(Events(rev, lines[..i])), EventOf(rev, lines[i]))
  {
    var init := lines[..i + 1];
    assert init[..i] == lines[..i] && init[i] == lines[i];
    var es := Events(rev, init);
    assert es[..i] == Events(rev, lines[..i]);
  }

  /** In a playable listing, an attribute line finds a node already open. */
  lemma OpenBefore(rev: Revision, lines: seq<string>, i: nat)
    requires i < |lines| && Playable(Events(rev, lines))
    ensures Attribute(EventOf(rev, lines[i])) ==> Play(Events(rev, lines[..i])).current.Some?
  {
    EventsPrefix(rev, lines, i);
    EventsPrefix(rev, lines, i + 1);
    PlayCurrent(Events(rev, lines[..i]));
    var es := Events(rev, lines);
    assert es[i] == Events(rev, lines[..i + 1])[i];
    assert Attribute(es[i]) ==> HasOpen(es[..i]);
  }

  /** `get_slurm_node_info` of either revision, reading the lines of `stdout` one by one. */
  method ParseNodeInfo(rev: Revision, stdout: string) returns (info: Dict<Record>)
    requires Parsable(rev, Split(stdout, "\n"))
    ensures info == Run(rev, Split(stdout, "\n"))
  {
    info := ReadLines(rev, Split(stdout, "\n"));
  }

  /** The `for line in ...` loop of `get_slurm_node_info`. */
  method ReadLines(rev: Revision, lines: seq<string>) returns (info: Dict<Record>)
    requires Parsable(rev, lines)
    ensures info == Run(rev, lines)
  {
    info := Dict([], map[]);
    var nodeName: Option<string> := None;
    var i := 0;
    while i < |lines|
      invariant 0 <= i <= |lines|
      invariant Parser(info, nodeName) == Play(Events(rev, lines[..i]))
    {
      ReadyFor(rev, lines, i, Parser(info, nodeName));
      info, nodeName := ReadLine(rev, lines[i], info, nodeName);
      i := i + 1;
    }
    assert lines[..i] == lines;
  }

  /** Line `i` can be read from the parser state the lines before it leave, and reading it
      gives the state after it. */
  lemma ReadyFor(rev: Revision, lines: seq<string>, i: nat, p: Parser)
    requires Parsable(rev, lines) && i < |lines| && p == Play(Events(rev, lines[..i]))
    ensures Readable(rev, lines[i]) && Good(p)
    ensures Attribute(EventOf(rev, lines[i])) ==> p.current.Some?
    ensures Play(Events(rev, lines[..i + 1])) == Apply(p, EventOf(rev, lines[i]))
  {
    PlayStep(rev, lines, i);
    OpenBefore(rev, lines, i);
  }

  /** The body of the loop in `get_slurm_node_info`: the `if`/`elif` chain reads the stripped
      line, then the result is stored under the current node name. */
  method ReadLine(rev: Revision, raw: string, info0: Dict<Record>, nodeName0: Option<string>)
    returns (info: Dict<Record>, nodeName: Option<string>)
    requires Readable(rev, raw) && Good(Parser(info0, nodeName0))
    requires Attribute(EventOf(rev, raw)) ==> nodeName0.Some?
    ensures Parser(info, nodeName) == Apply(Parser(info0, nodeName0), EventOf(rev, raw))
  {
    var e := ReadEvent(rev, raw);
    info, nodeName := Store(info0, nodeName0, e);
  }

  /** The tests and field extractions of the `if`/`elif` chain on one line. */
  method ReadEvent(rev: Revision, raw: string) returns (e: Event)
    requires Readable(rev, raw)
    ensures e == EventOf(rev, raw)
  {
    var line := Strip(raw);
    if StartsWith(line, "NodeName") {
      e := Open(Before(Piece(line, "=", 1), " "));
    } else if StartsWith(line, "Partitions") {
      e := SetPartition(Piece(line, "=", 1));
    } else if StartsWith(line, "CfgTRES") {
      var cfg := ReadCfg(rev, Replace(line, "CfgTRES=", ""));
      e := SetCfg(cfg);
    } else if StartsWith(line, "AllocTRES") {
      var alloc := ReadAlloc(rev, Replace(line, "AllocTRES=", ""));
      e := SetAlloc(alloc);
    } else if rev == Current && StartsWith(line, "State") {
      e := SetState(Strip(Before(Piece(line, "=", 1), " ")));
    } else {
      e := Skip;
    }
  }

  /** The assignments of the chain: `node_info[node_name] = {}` and `node_name = ...` for a
      `NodeName` line, `node_info[node_name][field] = value` for the others. */
  method Store(info0: Dict<Record>, nodeName0: Option<string>, e: Event)
    returns (info: Dict<Record>, nodeName: Option<string>)
    requires Good(Parser(info0, nodeName0)) && (Attribute(e) ==> nodeName0.Some?)
    ensures Parser(info, nodeName) == Apply(Parser(info0, nodeName0), e)
  {
    info, nodeName := info0, nodeName0;
    match e
    case Open(name) =>
      info := Put(info, name, Blank);
      nodeName := Some(name);
    case SetPartition(partition) =>
      info := Put(info, nodeName.value, info.vals[nodeName.value].(partition := Some(partition)));
    case SetCfg(cfg) =>
      info := Put(info, nodeName.value, info.vals[nodeName.value].(cfg := Some(cfg)));
    case SetAlloc(alloc) =>
      info := Put(info, nodeName.value, info.vals[nodeName.value].(alloc := Some(alloc)));
    case SetState(state) =>
      info := Put(info, nodeName.value, info.vals[nodeName.value].(state := Some(state)));
    case Skip =>
  }

  /** The `CfgTRES` branch: the list after `CfgTRES=` through the revision's `parse_tres`. */
  method ReadCfg(rev: Revision, t: string) returns (cfg: Tres)
    requires WellFormed(t)
    ensures cfg == CfgOf(rev, t)
  {
    if rev == Current {
      cfg := ParseTres(t);
    } else {
      cfg := ParseTresOg(t);
    }
  }

  /** The `AllocTRES` branch: all zero for an empty list, otherwise the revision's `parse_tres`
      (with the defaults filled in by hand in the original). */
  method ReadAlloc(rev: Revision, t: string) returns (alloc: Tres)
    requires t == "" || WellFormed(t)
    ensures alloc == AllocOf(rev, t)
  {
    if t == "" {
      alloc := map[CpuKey := "0", MemKey := "0G", GpuKey := "0"];
    } else if rev == Current {
      alloc := ParseTres(t);
    } else {
      alloc := ParseTresOg(t);
      alloc := WithDefaults(alloc);
    }
  }

  /** The names of the `NodeName` lines, in order, repeats included. */
  function Opened(es: seq<Event>): (names: seq<string>)
    ensures forall n :: n in names <==> Open(n) in es
  {
    if es == [] then []
    else
      var init, e := es[..|es| - 1], es[|es| - 1];
      assert es == init + [e];
      Opened(init) + if e.Open? then [e.name] else []
  }

  /** Each element at its first occurrence, in order. */
  function FirstSeen(s: seq<string>): (r: seq<string>)
    ensures Distinct(r)
    ensures forall x :: x in r <==> x in s
  {
    if s == [] then []
    else
      var init, x := s[..|s| - 1], s[|s| - 1];
      assert s == init + [x];
      if x in init then FirstSeen(init) else FirstSeen(init) + [x]
  }

  /** The dictionary holds one entry per node name, in the order the names were first seen;
      later `NodeName` lines for the same name do not move it. */
  lemma {:induction false} PlayKeys(es: seq<Event>)
    ensures Play(es).info.keys == FirstSeen(Opened(es))
  {
    if es != [] {
      var init, e := es[..|es| - 1], es[|es| - 1];
      assert es == init + [e];
      PlayKeys(init);
      if e.Open? {
        assert Opened(es) == Opened(init) + [e.name];
        assert Opened(es)[..|Opened(es)| - 1] == Opened(init);
      } else {
        assert Opened(es) == Opened(init);
      }
    }
  }

  /** The record after a block of attribute lines: each writes its field, the last one wins. */
  function Fill(r: Record, es: seq<Event>): Record {
    if es == [] then r
    else
      var init, e := es[..|es| - 1], es[|es| - 1];
      var s := Fill(r, init);
      if Attribute(e) then Update(s, e) else s
  }

  /** The parser after further events. */
  function Replay(p: Parser, es: seq<Event>): (q: Parser)
    requires Good(p)
    ensures Good(q)
  {
    if es == [] then p else Apply(Replay(p, es[..|es| - 1]), es[|es| - 1])
  }

  /** Playing two stretches of events one after the other is playing them together. */
  lemma {:induction false} PlayConcat(a: seq<Event>, b: seq<Event>)
    ensures Play(a + b) == Replay(Play(a), b)
  {
    if b == [] {
      assert a + b == a;
    } else {
      var init := b[..|b| - 1];
      PlayConcat(a, init);
      assert (a + b)[..|a + b| - 1] == a + init;
    }
  }

  /** Lines that open no node write only into the current record. */
  lemma {:induction false} ReplayBlock(p: Parser, rest: seq<Event>)
    requires Good(p) && p.current.Some?
    requires forall e :: e in rest ==> !e.Open?
    ensures Replay(p, rest).current == p.current
    ensures p.current.value in Replay(p, rest).info.vals
    ensures Replay(p, rest).info.vals[p.current.value] == Fill(p.info.vals[p.current.value], rest)
    ensures forall k :: k != p.current.value && k in p.info.vals ==>
      k in Replay(p, rest).info.vals && Replay(p, rest).info.vals[k] == p.info.vals[k]
  {
    if rest != [] {
      var init := rest[..|rest| - 1];
      assert forall e :: e in init ==> e in rest;
      ReplayBlock(p, init);
    }
  }

  /** A `NodeName` line followed by lines that open no node: that node's record is a fresh one
      filled in by those lines, whatever it held before, and every other record is as it was. */
  lemma PlayBlock(es: seq<Event>, n: string, rest: seq<Event>)
    requires forall e :: e in rest ==> !e.Open?
    ensures Play(es + [Open(n)] + rest).current == Some(n)
    ensures Play(es + [Open(n)] + rest).info.vals[n] == Fill(Blank, rest)
    ensures forall k :: k != n && k in Play(es).info.vals ==>
      k in Play(es + [Open(n)] + rest).info.vals && Play(es + [Open(n)] + rest).info.vals[k] == Play(es).info.vals[k]
  {
    var head := es + [Open(n)];
    assert head[..|head| - 1] == es;
    var p := Play(head);
    assert p == Apply(Play(es), Open(n));
    PlayConcat(head, rest);
    ReplayBlock(p, rest);
  }

  /** All three TRES keys are present. */
  predicate Complete(t: Tres) {
    CpuKey in t && MemKey in t && GpuKey in t
  }

  /** What every record of a revision satisfies: allocation records always carry the three
      keys; in the current revision so do configuration records, and only the current
      revision records a state. */
  predicate Filled(rev: Revision, r: Record) {
    (r.alloc.Some? ==> Complete(r.alloc.value))
    && (rev == Current && r.cfg.Some? ==> Complete(r.cfg.value))
    && (rev == Original ==> r.state.None?)
  }

  /** What an event of a revision may write, so that records stay `Filled`. */
  predicate Sound(rev: Revision, e: Event) {
    match e
    case SetCfg(t) => rev == Current ==> Complete(t)
    case SetAlloc(t) => Complete(t)
    case SetState(_) => rev == Current
    case _ => true
  }

  lemma EventSound(rev: Revision, raw: string)
    ensures Sound(rev, EventOf(rev, raw))
  {
    var line := Strip(raw);
    if !StartsWith(line, "NodeName") && !StartsWith(line, "Partitions") {
      if StartsWith(line, "CfgTRES") {
        CfgComplete(rev, Replace(line, "CfgTRES=", ""));
      } else if StartsWith(line, "AllocTRES") {
        AllocComplete(rev, Replace(line, "AllocTRES=", ""));
      }
    }
  }

  lemma CfgComplete(rev: Revision, t: string)
    ensures rev == Current ==> Complete(CfgOf(rev, t))
  {
    if rev == Current {
      var r := WithDefaults(RawTresOf(t));
      assert CpuKey in Zero && MemKey in Zero && GpuKey in Zero;
      assert CpuKey in r && MemKey in r && GpuKey in r;
    }
  }

  lemma AllocComplete(rev: Revision, t: string)
    ensures Complete(AllocOf(rev, t))
  {
    if t != "" {
      var r := WithDefaults(RawTresOf(t));
      assert CpuKey in Zero && MemKey in Zero && GpuKey in Zero;
      assert CpuKey in r && MemKey in r && GpuKey in r;
    }
  }

  lemma {:induction false} PlayFilled(rev: Revision, es: seq<Event>)
    requires forall e :: e in es ==> Sound(rev, e)
    ensures forall k :: k in Play(es).info.vals ==> Filled(rev, Play(es).info.vals[k])
  {
    if es != [] {
      var init, e := es[..|es| - 1], es[|es| - 1];
      assert forall x :: x in init ==> x in es;
      PlayFilled(rev, init);
      assert Sound(rev, e);
    }
  }

  lemma {:induction false} EventsSound(rev: Revision, lines: seq<string>)
    ensures forall e :: e in Events(rev, lines) ==> Sound(rev, e)
  {
    if lines != [] {
      var init := lines[..|lines| - 1];
      EventsSound(rev, init);
      EventSound(rev, lines[|lines| - 1]);
    }
  }

  /** The parsed listing: in both revisions every allocation record has the keys `cpu`, `mem`
      and `gres/gpu`; in the current revision every configuration record has them too; the
      original revision never records a state. */
  lemma RunFilled(rev: Revision, lines: seq<string>)
    requires Parsable(rev, lines)
    ensures forall k :: k in Run(rev, lines).vals ==> Filled(rev, Run(rev, lines).vals[k])
  {
    EventsSound(rev, lines);
    PlayFilled(rev, Events(rev, lines));
  }

  /** The parsed listing has one entry per `NodeName` line's name, in first-seen order. */
  lemma RunKeys(rev: Revision, lines: seq<string>)
    requires Parsable(rev, lines)
    ensures Run(rev, lines).keys == FirstSeen(Opened(Events(rev, lines)))
  {
    PlayKeys(Events(rev, lines));
  }
}
