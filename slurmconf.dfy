/**
 * Reading the per-node scheduling defaults out of `slurm.conf`: every line that names
 * `Nodes=` sets `DefMemPerCPU` and `DefCpuPerGPU` (0 where the line does not give them) for
 * each node it lists.
 */
module SlurmConf {
  import opened Wrappers
  import opened PyStr

  /** The defaults of one node: megabytes of memory per CPU and CPUs per GPU. */
  datatype Policy = Policy(memPerCpu: nat, cpuPerGpu: nat)

  /** Node name to its defaults; only ever looked up, so key order plays no part. */
  type Defaults = map<string, Policy>

  const MemTag: string := "DefMemPerCPU="
  const CpuTag: string := "DefCpuPerGPU="

  /** The line is a node line. */
  predicate Mentions(line: string) {
    Contains(line, "Nodes=")
  }

  /** The comma-separated names after `Nodes=`, up to the next space. A line read with
      `readlines` keeps its newline, so on a line that ends in its node list the last name
      ends in `"\n"`. */
  function NodeNames(line: string): seq<string> {
    Split(Field(line, "Nodes="), ",")
  }

  /** `int(...)` succeeds on the value after `tag`, if the line has one. */
  predicate Settable(line: string, tag: string)
    requires tag != []
  {
    Contains(line, tag) ==> IsNumeral(Strip(Field(line, tag)))
  }

  /** Reading the line does not raise. */
  predicate Readable(line: string) {
    Mentions(line) ==> Settable(line, MemTag) && Settable(line, CpuTag)
  }

  /** The value after `tag`, or 0 where the line does not give it. */
  function Setting(line: string, tag: string): nat
    requires tag != []
  {
    if Contains(line, tag) && IsNumeral(Strip(Field(line, tag))) then ToInt(Field(line, tag)) else 0
  }

  /** The defaults a node line sets. */
  function PolicyOf(line: string): Policy {
    Policy(Setting(line, MemTag), Setting(line, CpuTag))
  }

  /** Every name in `names` gets `p`; every other entry stays. */
  function Override(d: Defaults, names: seq<string>, p: Policy): (r: Defaults)
    ensures forall n :: n in r <==> n in d || n in names
    ensures forall n :: n in names ==> r[n] == p
    ensures forall n :: n in d && n !in names ==> r[n] == d[n]
  {
    d + map n | n in names :: p
  }

  /** What a node line sets: its names and their defaults. */
  datatype Listing = Listing(names: seq<string>, policy: Policy)

  function ListingOf(line: string): Option<Listing> {
    if Mentions(line) then Some(Listing(NodeNames(line), PolicyOf(line))) else None
  }

  /** The listings of the lines, in order. */
  function Listings(lines: seq<string>): (ls: seq<Option<Listing>>)
    ensures |ls| == |lines|
  {
    if lines == [] then [] else Listings(lines[..|lines| - 1]) + [ListingOf(lines[|lines| - 1])]
  }

  /** The table the listings build, one after the other. */
  function Gather(ls: seq<Option<Listing>>): Defaults {
    if ls == [] then map[]
    else
      var d := Gather(ls[..|ls| - 1]);
      match ls[|ls| - 1]
      case None => d
      case Some(l) => Override(d, l.names, l.policy)
  }

  /** `get_node_default_values` as a value: the table after every line. */
  function DefaultsOf(lines: seq<string>): Defaults {
    Gather(Listings(lines))
  }

  /** `get_node_default_values` over the lines of the file, as `readlines` gives them. */
  method ReadDefaults(lines: seq<string>) returns (default: Defaults)
    requires forall line :: line in lines ==> Readable(line)
    ensures default == DefaultsOf(lines)
  {
    default := map[];
    var i := 0;
    while i < |lines|
      invariant 0 <= i <= |lines|
      invariant default == Gather(Listings(lines[..i]))
    {
      assert lines[i] in lines;
      GatherStep(lines, i);
      default := ReadConfLine(default, lines[i]);
      i := i + 1;
    }
    assert lines[..i] == lines;
  }

  /** The body of the loop: a node line's settings, then the inner loop over its names. */
  method ReadConfLine(d: Defaults, line: string) returns (r: Defaults)
    requires Readable(line)
    ensures r == if Mentions(line) then Override(d, NodeNames(line), PolicyOf(line)) else d
  {
    r := d;
    if Contains(line, "Nodes=") {
      var names := Split(Field(line, "Nodes="), ",");
      var mem, cpu := 0, 0;
      if Contains(line, MemTag) {
        mem := ToInt(Field(line, MemTag));
      }
      if Contains(line, CpuTag) {
        cpu := ToInt(Field(line, CpuTag));
      }
      r := AssignNames(r, names, Policy(mem, cpu));
    }
  }

  /** `for node_name in node_names: default[node_name] = {...}` */
  method AssignNames(d: Defaults, names: seq<string>, p: Policy) returns (r: Defaults)
    ensures r == Override(d, names, p)
  {
    r := d;
    var j := 0;
    while j < |names|
      invariant 0 <= j <= |names|
      invariant r == Override(d, names[..j], p)
    {
      assert names[..j + 1] == names[..j] + [names[j]];
      OverrideSnoc(d, names[..j], names[j], p);
      r := r[names[j] := p];
      j := j + 1;
    }
    assert names[..j] == names;
  }

  lemma OverrideSnoc(d: Defaults, names: seq<string>, x: string, p: Policy)
    ensures Override(d, names + [x], p) == Override(d, names, p)[x := p]
  {
    assert forall n :: n in names + [x] <==> n in names || n == x;
  }

  /** Reading line `i` extends the table of the lines before it by that line's listing. */
  lemma GatherStep(lines: seq<string>, i: nat)
    requires i < |lines|
    ensures Gather(Listings(lines[..i + 1])) ==
      if Mentions(lines[i]) then Override(Gather(Listings(lines[..i])), NodeNames(lines[i]), PolicyOf(lines[i]))
      else Gather(Listings(lines[..i]))
  {
    var b := lines[..i + 1];
    assert b[..|b| - 1] == lines[..i] && b[|b| - 1] == lines[i];
    var ls := Listings(b);
    assert ls[..|ls| - 1] == Listings(lines[..i]) && ls[|ls| - 1] == ListingOf(lines[i]);
  }

  /** Listing `i` of the lines is that of line `i`. */
  lemma {:induction false} ListingsAt(lines: seq<string>, i: nat)
    requires i < |lines|
    ensures Listings(lines)[i] == ListingOf(lines[i])
  {
    var init, last := lines[..|lines| - 1], lines[|lines| - 1];
    var ls := Listings(init) + [ListingOf(last)];
    assert Listings(lines) == ls;
    if i < |init| {
      ListingsAt(init, i);
      assert init[i] == lines[i];
      assert ls[i] == Listings(init)[i];
    } else {
      assert ls[i] == ListingOf(last);
    }
  }

  /** Listing `i` names `n`. */
  predicate Lists(ls: seq<Option<Listing>>, i: nat, n: string)
    requires i < |ls|
  {
    ls[i].Some? && n in ls[i].value.names
  }

  /** The gathered table names exactly the nodes some listing names. */
  lemma {:induction false} GatherKeys(ls: seq<Option<Listing>>, n: string)
    ensures n in Gather(ls) <==> exists i :: 0 <= i < |ls| && Lists(ls, i, n)
  {
    if ls != [] {
      var init := ls[..|ls| - 1];
      var last := |ls| - 1;
      GatherKeys(init, n);
      var d := Gather(init);
      if ls[last].Some? {
        var l := ls[last].value;
        assert Gather(ls) == Override(d, l.names, l.policy);
        if n in l.names {
          assert Lists(ls, last, n);
        } else {
          ListsInit(ls, init, n);
        }
      } else {
        assert Gather(ls) == d;
        ListsInit(ls, init, n);
      }
    }
  }

  /** When the last listing does not name `n`, the listings that name it are those before it. */
  lemma ListsInit(ls: seq<Option<Listing>>, init: seq<Option<Listing>>, n: string)
    requires ls != [] && init == ls[..|ls| - 1] && !Lists(ls, |ls| - 1, n)
    ensures (exists i :: 0 <= i < |ls| && Lists(ls, i, n)) <==> exists i :: 0 <= i < |init| && Lists(init, i, n)
  {
    if exists i :: 0 <= i < |init| && Lists(init, i, n) {
      var i :| 0 <= i < |init| && Lists(init, i, n);
      assert ls[i] == init[i];
      assert Lists(ls, i, n);
    }
    if exists i :: 0 <= i < |ls| && Lists(ls, i, n) {
      var i :| 0 <= i < |ls| && Lists(ls, i, n);
      assert i < |init|;
      assert init[i] == ls[i];
      assert Lists(init, i, n);
    }
  }

  /** No listing after listing `i` names `n`. */
  predicate LastListing(ls: seq<Option<Listing>>, i: nat, n: string)
    requires i < |ls|
  {
    forall m :: i < m < |ls| ==> !Lists(ls, m, n)
  }

  /** The last listing that names a node sets its defaults. */
  lemma {:induction false} GatherLastWins(ls: seq<Option<Listing>>, i: nat, n: string)
    requires i < |ls| && Lists(ls, i, n) && LastListing(ls, i, n)
    ensures n in Gather(ls) && Gather(ls)[n] == ls[i].value.policy
  {
    var init := ls[..|ls| - 1];
    if i < |ls| - 1 {
      assert init[i] == ls[i];
      assert LastListing(init, i, n) by {
        forall m | i < m < |init| ensures !Lists(init, m, n) {
          assert !Lists(ls, m, n);
          assert init[m] == ls[m];
        }
      }
      GatherLastWins(init, i, n);
      assert !Lists(ls, |ls| - 1, n);
    }
  }

  /** The table names exactly the nodes listed on some node line, and each node has the
      defaults of the last node line listing it. */
  lemma DefaultsContract(lines: seq<string>)
    ensures forall i :: 0 <= i < |lines| ==> Listings(lines)[i] == ListingOf(lines[i])
    ensures forall n :: n in DefaultsOf(lines) <==> exists i :: 0 <= i < |lines| && Lists(Listings(lines), i, n)
    ensures forall i, n :: 0 <= i < |lines| && Lists(Listings(lines), i, n) && LastListing(Listings(lines), i, n) ==>
      DefaultsOf(lines)[n] == PolicyOf(lines[i])
  {
    DefaultsListings(lines);
    forall n ensures n in DefaultsOf(lines) <==> exists i :: 0 <= i < |lines| && Lists(Listings(lines), i, n) {
      DefaultsKeys(lines, n);
    }
    DefaultsValues(lines);
  }

  lemma DefaultsListings(lines: seq<string>)
    ensures forall i :: 0 <= i < |lines| ==> Listings(lines)[i] == ListingOf(lines[i])
  {
    forall i | 0 <= i < |lines| ensures Listings(lines)[i] == ListingOf(lines[i]) {
      ListingsAt(lines, i);
    }
  }

  lemma DefaultsKeys(lines: seq<string>, n: string)
    ensures n in DefaultsOf(lines) <==> exists i :: 0 <= i < |lines| && Lists(Listings(lines), i, n)
  {
    var ls := Listings(lines);
    GatherKeys(ls, n);
    if n in DefaultsOf(lines) {
      var i :| 0 <= i < |ls| && Lists(ls, i, n);
      assert 0 <= i < |lines|;
    }
  }

  lemma DefaultsValues(lines: seq<string>)
    ensures forall i, n :: 0 <= i < |lines| && Lists(Listings(lines), i, n) && LastListing(Listings(lines), i, n) ==>
      n in DefaultsOf(lines) && DefaultsOf(lines)[n] == PolicyOf(lines[i])
  {
    var ls := Listings(lines);
    forall i, n | 0 <= i < |lines| && Lists(ls, i, n) && LastListing(ls, i, n)
      ensures n in DefaultsOf(lines) && DefaultsOf(lines)[n] == PolicyOf(lines[i])
    {
      GatherLastWins(ls, i, n);
      ListingsAt(lines, i);
    }
  }
}
