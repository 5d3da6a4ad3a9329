/**
 * Reading the nodes of a reservation out of `scontrol show res`: the first line whose stripped
 * form starts with `Nodes=` holds either a comma list of names or one bracketed range
 * expression `base[a-b,c,...]`, which is expanded into single names.
 */
module Reservation {
  import opened Wrappers
  import opened PyStr
  import opened Dicts

  /** `x` is a `Nodes=` line. */
  predicate IsNodeLine(x: string) {
    StartsWith(Strip(x), "Nodes=")
  }

  /** `[line for line in lines if line.strip().startswith('Nodes=')]` */
  function NodeLines(lines: seq<string>): (r: seq<string>)
    ensures forall x :: x in r <==> x in lines && IsNodeLine(x)
    ensures r == [] <==> forall x :: x in lines ==> !IsNodeLine(x)
  {
    if lines == [] then []
    else
      var init, x := lines[..|lines| - 1], lines[|lines| - 1];
      assert lines == init + [x];
      NodeLines(init) + if IsNodeLine(x) then [x] else []
  }

  /** `nodes_line[0].split('=')[1].strip()`: the text between the first and the second `=`. */
  function NodeSpec(line: string): string {
    Strip(Piece(line, "=", 1))
  }

  /** `nodes_str.split('[')[1].split(']')[0].split(',')`: the items between the brackets. */
  function RangeList(spec: string): seq<string> {
    Split(Before(Piece(spec, "[", 1), "]"), ",")
  }

  /** An item with a `-` is two numerals around a single `-`, so that
      `start, end = map(int, item.split('-'))` does not raise. */
  predicate IsRange(item: string) {
    |Split(item, "-")| == 2 && IsNumeral(Strip(Piece(item, "-", 0))) && IsNumeral(Strip(Piece(item, "-", 1)))
  }

  /** Reading the item does not raise. */
  predicate ItemReadable(item: string) {
    '-' in item ==> IsRange(item)
  }

  /** The filter keeps order: the `Nodes=` lines of two stretches of lines are those of the
      first stretch followed by those of the second. */
  lemma {:induction false} NodeLinesConcat(a: seq<string>, b: seq<string>)
    ensures NodeLines(a + b) == NodeLines(a) + NodeLines(b)
    decreases |b|
  {
    if b == [] {
      assert a + b == a;
    } else {
      var init, x := b[..|b| - 1], b[|b| - 1];
      var ab := a + b;
      assert ab[..|ab| - 1] == a + init && ab[|ab| - 1] == x;
      var tail := if IsNodeLine(x) then [x] else [];
      var na, ni := NodeLines(a), NodeLines(init);
      NodeLinesSnoc(ab);
      NodeLinesSnoc(b);
      NodeLinesConcat(a, init);
      assert NodeLines(ab) == (na + ni) + tail;
      assert NodeLines(b) == ni + tail;
      Assoc(na, ni, tail);
    }
  }

  lemma Assoc<T>(a: seq<T>, b: seq<T>, c: seq<T>)
    ensures (a + b) + c == a + (b + c)
  {
  }

  /** The filter over all lines is the filter over all but the last, then the last if kept. */
  lemma NodeLinesSnoc(lines: seq<string>)
    requires lines != []
    ensures NodeLines(lines) ==
      NodeLines(lines[..|lines| - 1]) + if IsNodeLine(lines[|lines| - 1]) then [lines[|lines| - 1]] else []
  {
  }

  /** Each `Nodes=` line is kept as often as it occurs, and no other line is kept. */
  lemma {:induction false} NodeLinesCount(lines: seq<string>, x: string)
    ensures multiset(NodeLines(lines))[x] == if IsNodeLine(x) then multiset(lines)[x] else 0
  {
    if lines != [] {
      var init, y := lines[..|lines| - 1], lines[|lines| - 1];
      assert lines == init + [y];
      NodeLinesCount(init, x);
      var tail := if IsNodeLine(y) then [y] else [];
      NodeLinesSnoc(lines);
      assert multiset(NodeLines(lines)) == multiset(NodeLines(init)) + multiset(tail);
      assert multiset(lines) == multiset(init) + multiset{y};
    }
  }

  /** `[f"{base}{i}" for i in range(lo, hi + 1)]`: the names `lo` to `hi`, both included. */
  function Span(base: string, lo: nat, hi: nat): seq<string> {
    seq(if lo <= hi then hi - lo + 1 else 0, k requires 0 <= k => base + NatToString(lo + k))
  }

  /** The names one item stands for: a range `a-b`, or the single name `base + item`. An item
      that is not a range but holds a `-` makes Python raise; it gives nothing here and
      `ItemReadable` excludes it. */
  function ItemNames(base: string, item: string): seq<string> {
    if '-' !in item then [base + item]
    else if IsRange(item) then Span(base, ToInt(Piece(item, "-", 0)), ToInt(Piece(item, "-", 1)))
    else []
  }

  /** The names of each item, item by item. */
  function Groups(base: string, items: seq<string>): (gs: seq<seq<string>>)
    ensures |gs| == |items|
  {
    seq(|items|, k requires 0 <= k < |items| => ItemNames(base, items[k]))
  }

  /** The lists one after the other. */
  function Concat(xss: seq<seq<string>>): seq<string> {
    if xss == [] then [] else Concat(xss[..|xss| - 1]) + xss[|xss| - 1]
  }

  /** The names of the items, item after item. */
  function Expand(base: string, items: seq<string>): seq<string> {
    Concat(Groups(base, items))
  }

  /** The node names a `Nodes=` value stands for. */
  function NodesOf(spec: string): seq<string> {
    if '[' in spec then Expand(Before(spec, "["), RangeList(spec)) else Split(spec, ",")
  }

  /** `get_nodes_in_reservation` as a value: the names on the first `Nodes=` line, or none. */
  function Reserved(stdout: string): seq<string> {
    var found := NodeLines(Split(stdout, "\n"));
    if found == [] then [] else NodesOf(NodeSpec(found[0]))
  }

  /** Reading the reservation does not raise: every item of a bracketed list is readable. */
  predicate Readable(stdout: string) {
    var found := NodeLines(Split(stdout, "\n"));
    found != [] && '[' in NodeSpec(found[0]) ==>
      forall item :: item in RangeList(NodeSpec(found[0])) ==> ItemReadable(item)
  }

  /** `get_nodes_in_reservation` over the text `scontrol show res` prints. */
  method GetNodesInReservation(stdout: string) returns (nodes: seq<string>)
    requires Readable(stdout)
    ensures nodes == Reserved(stdout)
  {
    var found := NodeLines(Split(stdout, "\n"));
    if found != [] {
      var spec := Strip(Piece(found[0], "=", 1));
      if '[' in spec {
        var base := Before(spec, "[");
        var ranges := Split(Before(Piece(spec, "[", 1), "]"), ",");
        nodes := ExpandRanges(base, ranges);
      } else {
        nodes := Split(spec, ",");
      }
    } else {
      nodes := [];
    }
  }

  /** The `for item in ranges` loop. */
  method ExpandRanges(base: string, ranges: seq<string>) returns (nodes: seq<string>)
    requires forall item :: item in ranges ==> ItemReadable(item)
    ensures nodes == Expand(base, ranges)
  {
    nodes := [];
    for i := 0 to |ranges|
      invariant nodes == Expand(base, ranges[..i])
    {
      ExpandStep(base, ranges, i);
      var item := ranges[i];
      assert item in ranges;
      if '-' in item {
        var parts := Split(item, "-");
        var start, end := ToInt(parts[0]), ToInt(parts[1]);
        nodes := nodes + Span(base, start, end);
      } else {
        nodes := nodes + [base + item];
      }
    }
    assert ranges[..|ranges|] == ranges;
  }

  /** `x` is `base + str(i)` for some `i` from `lo` to `hi`. */
  predicate Numbered(base: string, lo: nat, hi: nat, x: string) {
    exists i :: lo <= i <= hi && x == base + NatToString(i)
  }

  /** The range `lo-hi` stands for exactly the names `base + str(i)` with `lo <= i <= hi`, each
      once, in ascending order of `i`. */
  lemma SpanNames(base: string, lo: nat, hi: nat)
    ensures |Span(base, lo, hi)| == if lo <= hi then hi - lo + 1 else 0
    ensures forall x :: x in Span(base, lo, hi) <==> Numbered(base, lo, hi, x)
    ensures Distinct(Span(base, lo, hi))
  {
    forall x ensures x in Span(base, lo, hi) <==> Numbered(base, lo, hi, x) {
      SpanHas(base, lo, hi, x);
    }
    SpanDistinct(base, lo, hi);
  }

  lemma SpanHas(base: string, lo: nat, hi: nat, x: string)
    ensures x in Span(base, lo, hi) <==> Numbered(base, lo, hi, x)
  {
    var r := Span(base, lo, hi);
    if x in r {
      var k :| 0 <= k < |r| && r[k] == x;
      assert lo <= lo + k <= hi && x == base + NatToString(lo + k);
    }
    if exists i :: lo <= i <= hi && x == base + NatToString(i) {
      var i :| lo <= i <= hi && x == base + NatToString(i);
      assert 0 <= i - lo < |r|;
      assert r[i - lo] == base + NatToString(lo + (i - lo));
      assert lo + (i - lo) == i;
      assert x in r;
    }
  }

  lemma SpanDistinct(base: string, lo: nat, hi: nat)
    ensures Distinct(Span(base, lo, hi))
  {
    var r := Span(base, lo, hi);
    forall j, k | 0 <= j < k < |r| ensures r[j] != r[k] {
      NumberedDiffer(base, lo + j, lo + k);
    }
  }

  /** Names with different numbers differ. */
  lemma NumberedDiffer(base: string, i: nat, j: nat)
    requires i != j
    ensures base + NatToString(i) != base + NatToString(j)
  {
    NatOfNatToString(i);
    NatOfNatToString(j);
    assert (base + NatToString(i))[|base|..] == NatToString(i);
    assert (base + NatToString(j))[|base|..] == NatToString(j);
  }

  /** Reading item `i` appends its names to those of the items before it. */
  lemma ExpandStep(base: string, ranges: seq<string>, i: nat)
    requires i < |ranges|
    ensures Expand(base, ranges[..i + 1]) == Expand(base, ranges[..i]) + ItemNames(base, ranges[i])
  {
    var gs := Groups(base, ranges[..i + 1]);
    assert gs[..i] == Groups(base, ranges[..i]);
    assert gs[i] == ItemNames(base, ranges[i]);
  }

  lemma {:induction false} ConcatAppend(a: seq<seq<string>>, b: seq<seq<string>>)
    ensures Concat(a + b) == Concat(a) + Concat(b)
  {
    if b == [] {
      assert a + b == a;
    } else {
      var init := b[..|b| - 1];
      assert (a + b)[..|a + b| - 1] == a + init;
      ConcatAppend(a, init);
    }
  }

  /** Expanding a list item by item: the names of `a + b` are those of `a`, then those of `b`. */
  lemma ExpandConcat(base: string, a: seq<string>, b: seq<string>)
    ensures Expand(base, a + b) == Expand(base, a) + Expand(base, b)
  {
    GroupsConcat(base, a, b);
    ConcatAppend(Groups(base, a), Groups(base, b));
  }

  lemma GroupsConcat(base: string, a: seq<string>, b: seq<string>)
    ensures Groups(base, a + b) == Groups(base, a) + Groups(base, b)
  {
    var ab := a + b;
    var l, r := Groups(base, ab), Groups(base, a) + Groups(base, b);
    forall k | 0 <= k < |l| ensures l[k] == r[k] {
      var item := ab[k];
      assert l[k] == ItemNames(base, item);
      if k < |a| {
        assert item == a[k];
        assert r[k] == Groups(base, a)[k];
      } else {
        assert item == b[k - |a|];
        assert r[k] == Groups(base, b)[k - |a|];
      }
    }
  }

  /** An item without `-` is the name `base + item`; an item `a-b` written in decimal stands for
      the names `a` to `b`. */
  lemma ItemExamples(base: string, item: string, a: nat, b: nat)
    ensures '-' !in item ==> ItemNames(base, item) == [base + item]
    ensures ItemNames(base, NatToString(a) + "-" + NatToString(b)) == Span(base, a, b)
  {
    RangeItem(NatToString(a), NatToString(b));
    NatOfNatToString(a);
    NatOfNatToString(b);
  }

  /** `x-y` for two numerals is a range from `x` to `y`. */
  lemma RangeItem(x: string, y: string)
    requires IsNumeral(x) && IsNumeral(y)
    ensures var item := x + "-" + y;
      '-' in item && IsRange(item) && Strip(Piece(item, "-", 0)) == x && Strip(Piece(item, "-", 1)) == y
  {
    NoDash(x);
    NoDash(y);
    SplitAtChar(x, '-', y);
    SplitNoChar(y, '-');
    var item := x + "-" + y;
    assert Split(item, "-") == [x, y];
    NumeralStrip(x);
    NumeralStrip(y);
    assert item[|x|] == '-';
  }

  lemma NoDash(s: string)
    requires IsNumeral(s)
    ensures '-' !in s && '[' !in s && ']' !in s && ',' !in s
  {
    forall i | 0 <= i < |s| ensures s[i] != '-' && s[i] != '[' && s[i] != ']' && s[i] != ',' {
      assert IsDigit(s[i]);
    }
  }

  lemma NumeralStrip(s: string)
    requires IsNumeral(s)
    ensures Strip(s) == s
  {
    forall i | 0 <= i < |s| ensures !IsSpace(s[i]) {
      assert IsDigit(s[i]);
    }
  }

  /** `base[a-b,c]` expands to `base + str(a)` up to `base + str(b)`, then `base + str(c)`. */
  lemma BracketExample(base: string, a: nat, b: nat, c: nat)
    requires '[' !in base
    ensures NodesOf(base + "[" + (NatToString(a) + "-" + NatToString(b) + "," + NatToString(c)) + "]")
      == Span(base, a, b) + [base + NatToString(c)]
  {
    var x, y, z := NatToString(a), NatToString(b), NatToString(c);
    NoDash(x);
    NoDash(y);
    NoDash(z);
    var r := x + "-" + y;
    var inner := r + "," + z;
    assert ',' !in r && '[' !in inner && ']' !in inner by {
      assert r == x + ['-'] + y && inner == x + ['-'] + y + [','] + z;
    }
    var spec := base + "[" + inner + "]";
    Bracketed(base, inner);
    assert NodesOf(spec) == Expand(base, Split(inner, ","));
    SplitAtChar(r, ',', z);
    SplitNoChar(z, ',');
    assert inner == r + [','] + z;
    assert Split(inner, ",") == [r, z];
    ItemExamples(base, z, a, b);
    ExpandTwo(base, r, z);
    assert Expand(base, [r, z]) == Span(base, a, b) + [base + z];
  }

  /** The items of `base[inner]` are those of `inner`, and its base is `base`. */
  lemma Bracketed(base: string, inner: string)
    requires '[' !in base && '[' !in inner && ']' !in inner
    ensures '[' in base + "[" + inner + "]"
    ensures Before(base + "[" + inner + "]", "[") == base
    ensures RangeList(base + "[" + inner + "]") == Split(inner, ",")
  {
    var spec, rest := base + "[" + inner + "]", inner + "]";
    assert spec[|base|] == '[';
    assert spec == base + ['['] + rest;
    OpenBracket(base, rest);
    CloseBracket(inner);
  }

  /** `(base + "[" + rest).split("[")` is `[base, rest]`. */
  lemma OpenBracket(base: string, rest: string)
    requires '[' !in base && '[' !in rest
    ensures Split(base + ['['] + rest, "[") == [base, rest]
  {
    SplitAtChar(base, '[', rest);
    SplitNoChar(rest, '[');
  }

  /** `(inner + "]").split("]")[0]` is `inner`. */
  lemma CloseBracket(inner: string)
    requires ']' !in inner
    ensures Before(inner + "]", "]") == inner
  {
    assert inner + "]" == inner + [']'] + "";
    SplitAtChar(inner, ']', "");
  }

  lemma ExpandTwo(base: string, r: string, z: string)
    ensures Expand(base, [r, z]) == ItemNames(base, r) + ItemNames(base, z)
  {
    var p, q := ItemNames(base, r), ItemNames(base, z);
    assert Groups(base, [r, z]) == [p, q];
    ConcatTwo(p, q);
  }

  lemma ConcatTwo(p: seq<string>, q: seq<string>)
    ensures Concat([p, q]) == p + q
  {
    assert [p, q][..1] == [p] && [p][..0] == [];
    assert Concat([p]) == p;
  }

  /** `node[1-2,5]` expands to `node1`, `node2`, `node5`, and so for any base name. */
  lemma NodeRangeExample(base: string)
    requires '[' !in base
    ensures NodesOf(base + "[1-2,5]") == [base + "1", base + "2", base + "5"]
  {
    var x := NatToString(1) + "-" + NatToString(2) + "," + NatToString(5);
    BracketExample(base, 1, 2, 5);
    RangeText();
    assert base + "[" + x + "]" == base + ("[" + x + "]");
    SpanExample(base);
    assert NatToString(5) == "5";
  }

  lemma SpanExample(base: string)
    ensures Span(base, 1, 2) == [base + "1", base + "2"]
  {
    var span := Span(base, 1, 2);
    Digits();
    assert |span| == 2 && span[0] == base + "1" && span[1] == base + "2";
  }

  lemma RangeText()
    ensures "[" + (NatToString(1) + "-" + NatToString(2) + "," + NatToString(5)) + "]" == "[1-2,5]"
  {
    Digits();
  }

  lemma Digits()
    ensures NatToString(1) == "1" && NatToString(2) == "2" && NatToString(5) == "5"
  {
  }

  /** `Reserved` with the `Nodes=` value cut at the first space, as the other readers of
      the tool cut a field: `nodes_line[0].split('=')[1].split(' ')[0]`. */
  function ReservedNodes(stdout: string): seq<string> {
    var found := NodeLines(Split(stdout, "\n"));
    if found == [] then [] else NodesOf(Field(found[0], "="))
  }

  /** `scontrol` prints `NodeCnt=` on the `Nodes=` line, right after the list. Without
      brackets, the text between the first two `=` then ends in ` NodeCnt`, so the last name
      read is not a node name: `Nodes=gpu1 NodeCnt=1` reads as `["gpu1 NodeCnt"]`. */
  lemma TrailingFieldKept(name: string, rest: string)
    requires name != [] && !IsSpace(name[0])
    requires '=' !in name && '[' !in name && ',' !in name && '\n' !in name
    requires NoSpace(rest) && '\n' !in rest
    ensures Reserved("Nodes=" + name + " NodeCnt=" + rest) == [name + " NodeCnt"]
  {
    CountLine(name, rest);
    PlainLine("Nodes=" + name + " NodeCnt=" + rest, name + " NodeCnt");
  }

  /** The line `Nodes=<name> NodeCnt=<rest>` is the only `Nodes=` line of its output, and its
      value is `<name> NodeCnt`. */
  lemma CountLine(name: string, rest: string)
    requires name != [] && !IsSpace(name[0])
    requires '=' !in name && '[' !in name && ',' !in name && '\n' !in name
    requires NoSpace(rest) && '\n' !in rest
    ensures NodeLines(Split("Nodes=" + name + " NodeCnt=" + rest, "\n")) == ["Nodes=" + name + " NodeCnt=" + rest]
    ensures NodeSpec("Nodes=" + name + " NodeCnt=" + rest) == name + " NodeCnt"
    ensures '[' !in name + " NodeCnt" && ',' !in name + " NodeCnt"
  {
    CountLineAlone(name, rest);
    CountLineValue(name, rest);
    CountValue(name);
  }

  lemma CountValue(name: string)
    requires name != [] && !IsSpace(name[0]) && '[' !in name && ',' !in name
    ensures Strip(name + " NodeCnt") == name + " NodeCnt"
    ensures '[' !in name + " NodeCnt" && ',' !in name + " NodeCnt"
  {
    NoEdgeSpace(name + " NodeCnt");
    Absent(name, " NodeCnt", '[');
    Absent(name, " NodeCnt", ',');
  }

  /** Cut at the first space, the same line reads as `[name]`. */
  lemma TrailingFieldCut(name: string, rest: string)
    requires name != []
    requires '=' !in name && '[' !in name && ',' !in name && '\n' !in name && ' ' !in name
    requires NoSpace(rest) && '\n' !in rest
    ensures ReservedNodes("Nodes=" + name + " NodeCnt=" + rest) == [name]
  {
    CountLineAlone(name, rest);
    CountLineValue(name, rest);
    assert Before(name + " NodeCnt", " ") == name by {
      SpaceThen(name);
      SplitAtChar(name, ' ', "NodeCnt");
    }
    PlainLineCut("Nodes=" + name + " NodeCnt=" + rest, name);
  }

  lemma Absent(a: string, b: string, c: char)
    requires c !in a && c !in b
    ensures c !in a + b
  {
  }

  lemma SpaceThen(a: string)
    ensures a + " NodeCnt" == a + [' '] + "NodeCnt"
  {
    assert " NodeCnt" == [' '] + "NodeCnt";
    assert a + ([' '] + "NodeCnt") == a + [' '] + "NodeCnt";
  }

  /** The only `Nodes=` line holds a plain comma-free name: it is the one reserved node. */
  lemma PlainLine(line: string, value: string)
    requires NodeLines(Split(line, "\n")) == [line] && NodeSpec(line) == value
    requires '[' !in value && ',' !in value
    ensures Reserved(line) == [value]
  {
    SplitNoChar(value, ',');
  }

  lemma PlainLineCut(line: string, name: string)
    requires NodeLines(Split(line, "\n")) == [line] && Field(line, "=") == name
    requires '[' !in name && ',' !in name
    ensures ReservedNodes(line) == [name]
  {
    SplitNoChar(name, ',');
  }

  /** The one-line output `Nodes=<name> NodeCnt=<rest>` is its own `Nodes=` line. */
  lemma CountLineAlone(name: string, rest: string)
    requires '\n' !in name && NoSpace(rest) && '\n' !in rest
    ensures NodeLines(Split("Nodes=" + name + " NodeCnt=" + rest, "\n")) == ["Nodes=" + name + " NodeCnt=" + rest]
  {
    var line := "Nodes=" + name + " NodeCnt=" + rest;
    CountLineUnbroken(name, rest);
    assert StartsWith(line, "Nodes=");
    assert !IsSpace(line[|line| - 1]) by {
      if rest == [] { assert line[|line| - 1] == '='; } else { assert line[|line| - 1] == rest[|rest| - 1]; }
    }
    OneNodeLine(line);
  }

  lemma CountLineUnbroken(name: string, rest: string)
    requires '\n' !in name && '\n' !in rest
    ensures Split("Nodes=" + name + " NodeCnt=" + rest, "\n") == ["Nodes=" + name + " NodeCnt=" + rest]
  {
    var line := "Nodes=" + name + " NodeCnt=" + rest;
    assert '\n' !in line;
    SplitNoChar(line, '\n');
  }

  /** The text between the first two `=` of that line is `<name> NodeCnt`. */
  lemma CountLineValue(name: string, rest: string)
    requires '=' !in name
    ensures Piece("Nodes=" + name + " NodeCnt=" + rest, "=", 1) == name + " NodeCnt"
  {
    var value := name + " NodeCnt";
    var line := "Nodes=" + name + " NodeCnt=" + rest;
    assert Split(line, "=") == ["Nodes", value] + Split(rest, "=") by {
      assert line == "Nodes" + ['='] + (value + ['='] + rest);
      assert '=' !in value;
      SplitAtChar("Nodes", '=', value + ['='] + rest);
      SplitAtChar(value, '=', rest);
    }
  }

  /** A line that starts with `Nodes=` and ends in a non-space is its own list of `Nodes=`
      lines. */
  lemma OneNodeLine(line: string)
    requires StartsWith(line, "Nodes=") && !IsSpace(line[|line| - 1])
    ensures NodeLines([line]) == [line]
  {
    assert !IsSpace(line[0]);
    assert Strip(line) == line;
    assert [line][..0] == [];
  }

  /** Strip leaves a string alone when it neither starts nor ends with a space. */
  lemma NoEdgeSpace(s: string)
    requires s != [] && !IsSpace(s[0]) && !IsSpace(s[|s| - 1])
    ensures Strip(s) == s
  {
    assert TrimStart(s) == s;
  }

  /** With the value cut at the first space, no name read holds a space. */
  lemma ReservedNodesAreNames(stdout: string)
    ensures forall x :: x in ReservedNodes(stdout) ==> ' ' !in x
  {
    var found := NodeLines(Split(stdout, "\n"));
    if found != [] {
      var spec := Field(found[0], "=");
      BeforeClean(Piece(found[0], "=", 1), " ");
      CharContains(spec, ' ');
      NodesOfClean(spec);
    }
  }

  /** A value without spaces gives names without spaces. */
  lemma NodesOfClean(spec: string)
    requires ' ' !in spec
    ensures forall x :: x in NodesOf(spec) ==> ' ' !in x
  {
    if '[' in spec {
      var base := Before(spec, "[");
      PieceKeeps(spec, "[", ' ', 0);
      PieceKeeps(spec, "[", ' ', 1);
      var inner := Before(Piece(spec, "[", 1), "]");
      PieceKeeps(Piece(spec, "[", 1), "]", ' ', 0);
      SplitKeeps(inner, ",", ' ');
      var items := RangeList(spec);
      forall x | x in Expand(base, items) ensures ' ' !in x {
        ConcatHas(Groups(base, items), x);
        var k :| 0 <= k < |items| && x in ItemNames(base, items[k]);
        assert items[k] in items;
        if '-' in items[k] && IsRange(items[k]) {
          var lo, hi := ToInt(Piece(items[k], "-", 0)), ToInt(Piece(items[k], "-", 1));
          SpanHas(base, lo, hi, x);
          var i :| lo <= i <= hi && x == base + NatToString(i);
          NumeralNoSpace(NatToString(i));
        }
      }
    } else {
      SplitKeeps(spec, ",", ' ');
    }
  }

  lemma PieceKeeps(s: string, sep: string, c: char, k: nat)
    requires sep != [] && c !in s
    ensures c !in Piece(s, sep, k)
  {
    SplitKeeps(s, sep, c);
    if k < |Split(s, sep)| {
      assert Split(s, sep)[k] in Split(s, sep);
    }
  }

  lemma NumeralNoSpace(s: string)
    requires IsNumeral(s)
    ensures ' ' !in s
  {
    forall i | 0 <= i < |s| ensures s[i] != ' ' {
      assert IsDigit(s[i]);
    }
  }

  /** A name of the joined lists is a name of one of them. */
  lemma {:induction false} ConcatHas(xss: seq<seq<string>>, x: string)
    requires x in Concat(xss)
    ensures exists j :: 0 <= j < |xss| && x in xss[j]
  {
    var init := xss[..|xss| - 1];
    if x in Concat(init) {
      ConcatHas(init, x);
      var j :| 0 <= j < |init| && x in init[j];
      assert xss[j] == init[j];
    } else {
      assert x in xss[|xss| - 1];
    }
  }

  /** The first `Nodes=` line heads the filtered lines. */
  lemma {:induction false} FirstNodeLine(lines: seq<string>, i: nat)
    requires i < |lines| && IsNodeLine(lines[i])
    requires forall j :: 0 <= j < i ==> !IsNodeLine(lines[j])
    ensures NodeLines(lines) != [] && NodeLines(lines)[0] == lines[i]
  {
    var init := lines[..|lines| - 1];
    if i < |init| {
      assert init[i] == lines[i];
      FirstNodeLine(init, i);
    } else {
      NoneBefore(lines, i);
      assert NodeLines(lines) == NodeLines(init) + [lines[i]];
    }
  }

  /** No line before line `i` is a `Nodes=` line. */
  lemma NoneBefore(lines: seq<string>, i: nat)
    requires i <= |lines| && forall j :: 0 <= j < i ==> !IsNodeLine(lines[j])
    ensures NodeLines(lines[..i]) == []
  {
    forall x | x in lines[..i] ensures !IsNodeLine(x) {
      var j :| 0 <= j < i && lines[..i][j] == x;
      assert lines[j] == x;
    }
  }

  /** The reserved nodes are those of the first `Nodes=` line. */
  lemma ReservedFromFirst(stdout: string, i: nat)
    requires i < |Split(stdout, "\n")| && IsNodeLine(Split(stdout, "\n")[i])
    requires forall j :: 0 <= j < i ==> !IsNodeLine(Split(stdout, "\n")[j])
    ensures Reserved(stdout) == NodesOf(NodeSpec(Split(stdout, "\n")[i]))
  {
    FirstNodeLine(Split(stdout, "\n"), i);
  }

  /** Without a `Nodes=` line there are no reserved nodes. */
  lemma ReservedNone(stdout: string)
    requires forall x :: x in Split(stdout, "\n") ==> !IsNodeLine(x)
    ensures Reserved(stdout) == []
  {
  }
}
