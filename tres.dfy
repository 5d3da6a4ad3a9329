/**
 * Trackable-resource (TRES) lists as `scontrol` prints them, `cpu=4,mem=8G,gres/gpu=1`, and
 * the memory strings inside them.
 */
module Tres {
  import opened PyStr

  /** A parsed TRES list: resource name to its text value. */
  type Tres = map<string, string>

  const CpuKey: string := "cpu"
  const MemKey: string := "mem"
  const GpuKey: string := "gres/gpu"

  /** The all-zero record; also the values filled in for missing keys. */
  const Zero: Tres := map[CpuKey := "0", MemKey := "0G", GpuKey := "0"]

  /** `key, val = item.split("=")` succeeds: the item holds exactly one `=`. */
  predicate IsPair(item: string) {
    |Split(item, "=")| == 2
  }

  /** Every item is a pair. */
  predicate Pairs(items: seq<string>) {
    forall item :: item in items ==> IsPair(item)
  }

  /** Every comma-separated item is a pair, so the parsing loop does not raise. */
  predicate WellFormed(s: string) {
    Pairs(Split(s, ","))
  }

  /** The part before the first `=`. */
  function Key(item: string): string {
    Before(item, "=")
  }

  /** The part between the first and the second `=`. */
  function Value(item: string): string {
    Piece(item, "=", 1)
  }

  /** The value as stored: stripped in nodestat.py, raw in nodestat-og.py. */
  function Cleaned(v: string, strip: bool): string {
    if strip then Strip(v) else v
  }

  /** No later item has the key of item `j`. */
  predicate LastWith(items: seq<string>, j: nat)
    requires j < |items|
  {
    forall m :: j < m < |items| ==> Key(items[m]) != Key(items[j])
  }

  /** The dictionary that `tres[key] = val` fills, item by item. */
  function Assign(items: seq<string>, strip: bool): Tres {
    if items == [] then map[]
    else
      var init, last := items[..|items| - 1], items[|items| - 1];
      Assign(init, strip)[Key(last) := Cleaned(Value(last), strip)]
  }

  lemma AssignSnoc(items: seq<string>, strip: bool)
    requires items != []
    ensures Assign(items, strip) ==
      Assign(items[..|items| - 1], strip)[Key(items[|items| - 1]) := Cleaned(Value(items[|items| - 1]), strip)]
  {
  }

  /** Item `i` splits in two, and storing it extends the map of the items before it. */
  lemma AssignStep(items: seq<string>, i: nat, strip: bool)
    requires Pairs(items) && i < |items|
    ensures var parts := Split(items[i], "=");
      |parts| == 2 && Assign(items[..i + 1], strip) == Assign(items[..i], strip)[parts[0] := Cleaned(parts[1], strip)]
  {
    assert items[i] in items;
    var parts := Split(items[i], "=");
    assert Key(items[i]) == parts[0] && Value(items[i]) == parts[1];
    AssignSnoc(items[..i + 1], strip);
    assert items[..i + 1][..i] == items[..i];
  }

  /** The keys of the items. */
  function ItemKeys(items: seq<string>): set<string> {
    set i | 0 <= i < |items| :: Key(items[i])
  }

  /** The dictionary holds exactly the keys of the items. */
  lemma {:induction false} AssignKeys(items: seq<string>, strip: bool)
    ensures Assign(items, strip).Keys == ItemKeys(items)
  {
    if items != [] {
      var init := items[..|items| - 1];
      AssignKeys(init, strip);
      assert ItemKeys(items) == ItemKeys(init) + {Key(items[|items| - 1])} by {
        forall k | k in ItemKeys(items) ensures k in ItemKeys(init) + {Key(items[|items| - 1])} {
          var i :| 0 <= i < |items| && Key(items[i]) == k;
          if i < |items| - 1 { assert init[i] == items[i]; }
        }
        forall k | k in ItemKeys(init) ensures k in ItemKeys(items) {
          var i :| 0 <= i < |init| && Key(init[i]) == k;
          assert items[i] == init[i];
        }
      }
    }
  }

  /** A later item with the same key overwrites an earlier one: each key holds the value of the
      last item that names it. */
  lemma {:induction false} AssignLastWins(items: seq<string>, strip: bool, j: nat)
    requires j < |items| && LastWith(items, j)
    ensures Key(items[j]) in Assign(items, strip)
    ensures Assign(items, strip)[Key(items[j])] == Cleaned(Value(items[j]), strip)
  {
    var init := items[..|items| - 1];
    if j < |items| - 1 {
      assert init[j] == items[j];
      assert LastWith(init, j) by {
        forall m | j < m < |init| ensures Key(init[m]) != Key(init[j]) {
          assert init[m] == items[m];
        }
      }
      AssignLastWins(init, strip, j);
    }
  }

  /** The three `if ... not in tres` statements: `cpu='0'`, `mem='0G'` and `gres/gpu='0'` are
      filled in where the key is missing, and every value that is there is kept. */
  function WithDefaults(t: Tres): (r: Tres)
    ensures forall k :: k in r <==> k in t || k in Zero
    ensures forall k :: k in t ==> r[k] == t[k]
    ensures forall k :: k in Zero && k !in t ==> r[k] == Zero[k]
  {
    Zero + t
  }

  /** `parse_tres` of nodestat.py as a value. */
  function TresOf(s: string): Tres {
    WithDefaults(Assign(Split(s, ","), true))
  }

  /** `parse_tres` of nodestat-og.py as a value: raw values, no defaults. */
  function RawTresOf(s: string): Tres {
    Assign(Split(s, ","), false)
  }

  /** The item loop shared by both revisions of `parse_tres`: split each item at `=` and store
      the value under the key, stripped or raw. */
  method AssignItems(items: seq<string>, strip: bool) returns (tres: Tres)
    requires Pairs(items)
    ensures tres == Assign(items, strip)
  {
    tres := map[];
    var i := 0;
    while i < |items|
      invariant 0 <= i <= |items|
      invariant tres == Assign(items[..i], strip)
    {
      var parts := Split(items[i], "=");
      AssignStep(items, i, strip);
      var key, val := parts[0], parts[1];
      tres := tres[key := Cleaned(val, strip)];
      i := i + 1;
    }
    assert items[..i] == items;
  }

  /** `parse_tres` (nodestat.py): the item loop over the comma-separated items, then the
      defaults. */
  method ParseTres(s: string) returns (tres: Tres)
    requires WellFormed(s)
    ensures tres == TresOf(s)
  {
    tres := AssignItems(Split(s, ","), true);
    tres := WithDefaults(tres);
  }

  /** `parse_tres` (nodestat-og.py): the item loop alone, values kept as written. */
  method ParseTresOg(s: string) returns (tres: Tres)
    requires WellFormed(s)
    ensures tres == RawTresOf(s)
  {
    tres := AssignItems(Split(s, ","), false);
  }

  /** What `parse_tres` (nodestat.py) promises: `cpu`, `mem` and `gres/gpu` are always there;
      the keys are those of the items plus these three; an item's stripped value is kept unless
      a later item names the same key; a default appears only where no item names the key. */
  lemma ParseTresContract(s: string)
    ensures CpuKey in TresOf(s) && MemKey in TresOf(s) && GpuKey in TresOf(s)
    ensures TresOf(s).Keys == ItemKeys(Split(s, ",")) + Zero.Keys
    ensures forall j :: 0 <= j < |Split(s, ",")| && LastWith(Split(s, ","), j) ==>
      TresOf(s)[Key(Split(s, ",")[j])] == Strip(Value(Split(s, ",")[j]))
    ensures forall k :: k in Zero && k !in ItemKeys(Split(s, ",")) ==> TresOf(s)[k] == Zero[k]
  {
    var items := Split(s, ",");
    AssignKeys(items, true);
    forall j | 0 <= j < |items| && LastWith(items, j)
      ensures TresOf(s)[Key(items[j])] == Strip(Value(items[j]))
    {
      AssignLastWins(items, true, j);
    }
  }

  /** What `parse_tres` (nodestat-og.py) promises: exactly the keys of the items, each with the
      raw value of the last item naming it. */
  lemma ParseTresOgContract(s: string)
    ensures RawTresOf(s).Keys == ItemKeys(Split(s, ","))
    ensures forall j :: 0 <= j < |Split(s, ",")| && LastWith(Split(s, ","), j) ==>
      RawTresOf(s)[Key(Split(s, ",")[j])] == Value(Split(s, ",")[j])
  {
    var items := Split(s, ",");
    AssignKeys(items, false);
    forall j | 0 <= j < |items| && LastWith(items, j)
      ensures RawTresOf(s)[Key(items[j])] == Value(items[j])
    {
      AssignLastWins(items, false, j);
    }
  }

  /** `key=value` with no other `=` is a pair with that key and value. */
  lemma PairOf(key: string, value: string)
    requires '=' !in key && '=' !in value
    ensures IsPair(Item(key, value))
    ensures Key(Item(key, value)) == key && Value(Item(key, value)) == value
  {
    SplitAtChar(key, '=', value);
    SplitNoChar(value, '=');
  }

  /** The item `key=value`. */
  function Item(key: string, value: string): string {
    key + "=" + value
  }

  /** Two items with distinct keys and unpadded values, `k1=v1,k2=v2`, parse to those two
      entries over the defaults: `cpu=4,mem=8G` gives `{cpu: 4, mem: 8G, gres/gpu: 0}`. */
  lemma TresOfTwo(k1: string, v1: string, k2: string, v2: string)
    requires ',' !in Item(k1, v1) && ',' !in Item(k2, v2)
    requires '=' !in k1 && '=' !in v1 && '=' !in k2 && '=' !in v2
    requires k1 != k2 && NoSpace(v1) && NoSpace(v2)
    ensures WellFormed(Item(k1, v1) + "," + Item(k2, v2))
    ensures TresOf(Item(k1, v1) + "," + Item(k2, v2)) == Zero + map[k1 := v1, k2 := v2]
  {
    var first, second := Item(k1, v1), Item(k2, v2);
    var items := Split(first + "," + second, ",");
    SplitTwo(first, second);
    PairOf(k1, v1);
    PairOf(k2, v2);
    assert Pairs(items) by {
      assert items == [first, second];
    }
    var t := Assign(items, true);
    assert t == map[k1 := v1, k2 := v2] by {
      AssignTwo(first, second, true);
      assert Strip(v1) == v1 && Strip(v2) == v2;
    }
  }

  lemma SplitTwo(first: string, second: string)
    requires ',' !in first && ',' !in second
    ensures Split(first + "," + second, ",") == [first, second]
  {
    SplitAtChar(first, ',', second);
    SplitNoChar(second, ',');
  }

  lemma AssignTwo(a: string, b: string, strip: bool)
    ensures Assign([a, b], strip) == map[Key(a) := Cleaned(Value(a), strip), Key(b) := Cleaned(Value(b), strip)]
  {
    assert [a, b][..1] == [a] && [a][..0] == [];
    assert Assign([a], strip) == map[Key(a) := Cleaned(Value(a), strip)];
    assert Assign([a, b], strip) == Assign([a], strip)[Key(b) := Cleaned(Value(b), strip)];
  }

  /** Three items with distinct keys, `k1=v1,k2=v2,k3=v3`, parse to those three entries,
      stripped, over the defaults. */
  lemma TresOfThree(k1: string, v1: string, k2: string, v2: string, k3: string, v3: string)
    requires ',' !in Item(k1, v1) && ',' !in Item(k2, v2) && ',' !in Item(k3, v3)
    requires '=' !in k1 && '=' !in v1 && '=' !in k2 && '=' !in v2 && '=' !in k3 && '=' !in v3
    requires k1 != k2 && k1 != k3 && k2 != k3
    ensures WellFormed(Item(k1, v1) + "," + Item(k2, v2) + "," + Item(k3, v3))
    ensures TresOf(Item(k1, v1) + "," + Item(k2, v2) + "," + Item(k3, v3)) ==
      WithDefaults(map[k1 := Strip(v1), k2 := Strip(v2), k3 := Strip(v3)])
  {
    var a, b, c := Item(k1, v1), Item(k2, v2), Item(k3, v3);
    ThreeItems(k1, v1, k2, v2, k3, v3);
    AssignThree(a, b, c, true);
  }

  lemma ThreeItems(k1: string, v1: string, k2: string, v2: string, k3: string, v3: string)
    requires ',' !in Item(k1, v1) && ',' !in Item(k2, v2) && ',' !in Item(k3, v3)
    requires '=' !in k1 && '=' !in v1 && '=' !in k2 && '=' !in v2 && '=' !in k3 && '=' !in v3
    ensures Split(Item(k1, v1) + "," + Item(k2, v2) + "," + Item(k3, v3), ",") == [Item(k1, v1), Item(k2, v2), Item(k3, v3)]
    ensures Pairs([Item(k1, v1), Item(k2, v2), Item(k3, v3)])
    ensures Key(Item(k1, v1)) == k1 && Key(Item(k2, v2)) == k2 && Key(Item(k3, v3)) == k3
    ensures Value(Item(k1, v1)) == v1 && Value(Item(k2, v2)) == v2 && Value(Item(k3, v3)) == v3
  {
    var a, b, c := Item(k1, v1), Item(k2, v2), Item(k3, v3);
    SplitThree(a, b, c);
    PairOf(k1, v1);
    PairOf(k2, v2);
    PairOf(k3, v3);
    forall item | item in [a, b, c] ensures IsPair(item) {
      assert item == a || item == b || item == c;
    }
  }

  lemma SplitThree(a: string, b: string, c: string)
    requires ',' !in a && ',' !in b && ',' !in c
    ensures Split(a + "," + b + "," + c, ",") == [a, b, c]
  {
    assert a + "," + b + "," + c == a + [','] + (b + "," + c);
    SplitAtChar(a, ',', b + "," + c);
    SplitTwo(b, c);
  }

  lemma AssignThree(a: string, b: string, c: string, strip: bool)
    ensures Assign([a, b, c], strip) ==
      map[Key(a) := Cleaned(Value(a), strip), Key(b) := Cleaned(Value(b), strip), Key(c) := Cleaned(Value(c), strip)]
  {
    assert [a, b, c][..2] == [a, b];
    AssignTwo(a, b, strip);
  }

  /** `parse_mem` can read `s`: decimal digits followed by one unit character. */
  predicate IsMem(s: string) {
    |s| >= 1 && IsNumeral(s[..|s| - 1])
  }

  /** `parse_mem`: whole gigabytes. With an `M` suffix the number is divided by 1000, with `K` by
      1000000, truncating; any other last character is dropped and the rest taken as it is. */
  function ParseMem(s: string): (g: nat)
    requires IsMem(s)
    ensures EndsWith(s, "M") ==> g * 1000 <= NatOf(s[..|s| - 1]) < (g + 1) * 1000
    ensures EndsWith(s, "K") ==> g * 1000000 <= NatOf(s[..|s| - 1]) < (g + 1) * 1000000
    ensures !EndsWith(s, "M") && !EndsWith(s, "K") ==> g == NatOf(s[..|s| - 1])
  {
    var n := NatOf(s[..|s| - 1]);
    if EndsWith(s, "M") then n / 1000
    else if EndsWith(s, "K") then n / 1000 / 1000
    else n
  }

  /** `"2048M"` gives 2, `"512M"` gives 0, `"128G"` gives 128, and a
      string without a unit loses its last digit: `"128"` gives 12. */
  lemma ParseMemExamples()
    ensures ParseMem("2048M") == 2
    ensures ParseMem("512M") == 0
    ensures ParseMem("128G") == 128
    ensures ParseMem("128") == 12
  {
    Mem2048M();
    Mem512M();
    Mem128();
  }

  lemma Mem2048M()
    ensures ParseMem("2048M") == 2
  {
    assert "2048M"[..4] == "2048" && "2048"[..3] == "204" && "204"[..2] == "20" && "20"[..1] == "2";
    assert NatOf("2") == 2 && NatOf("20") == 20 && NatOf("204") == 204 && NatOf("2048") == 2048;
  }

  lemma Mem512M()
    ensures ParseMem("512M") == 0
  {
    assert "512M"[..3] == "512" && "512"[..2] == "51" && "51"[..1] == "5";
    assert NatOf("5") == 5 && NatOf("51") == 51 && NatOf("512") == 512;
  }

  lemma Mem128()
    ensures ParseMem("128G") == 128
    ensures ParseMem("128") == 12
  {
    assert "128G"[..3] == "128" && "128"[..2] == "12" && "12"[..1] == "1";
    assert NatOf("1") == 1 && NatOf("12") == 12 && NatOf("128") == 128;
  }
}
