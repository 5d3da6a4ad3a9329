/** A value or nothing (Python's `None`). */
module Wrappers {
  datatype Option<+T> = None | Some(value: T)

  /** The values of the `Some`s, in order: what a loop that appends only some of its results
      collects. */
  function Somes<T>(xs: seq<Option<T>>): seq<T> {
    if xs == [] then [] else Somes(xs[..|xs| - 1]) + if xs[|xs| - 1].Some? then [xs[|xs| - 1].value] else []
  }

  lemma SomesSnoc<T>(xs: seq<Option<T>>, x: Option<T>)
    ensures Somes(xs + [x]) == Somes(xs) + if x.Some? then [x.value] else []
  {
    assert (xs + [x])[..|xs|] == xs;
  }

  /** A value is collected exactly when some element holds it. */
  lemma {:induction false} SomesHas<T>(xs: seq<Option<T>>, y: T)
    ensures y in Somes(xs) <==> Some(y) in xs
  {
    if xs != [] {
      var init := xs[..|xs| - 1];
      assert xs == init + [xs[|xs| - 1]];
      SomesHas(init, y);
    }
  }

  /** With no `None`, everything is collected, in order. */
  lemma {:induction false} SomesAll<T>(xs: seq<Option<T>>)
    requires forall k :: 0 <= k < |xs| ==> xs[k].Some?
    ensures |Somes(xs)| == |xs| && forall k :: 0 <= k < |xs| ==> Somes(xs)[k] == xs[k].value
  {
    if xs != [] {
      var init := xs[..|xs| - 1];
      SomesAll(init);
    }
  }

  /** With only `None`s, nothing is collected. */
  lemma {:induction false} SomesNone<T>(xs: seq<Option<T>>)
    requires forall k :: 0 <= k < |xs| ==> xs[k].None?
    ensures Somes(xs) == []
  {
    if xs != [] {
      SomesNone(xs[..|xs| - 1]);
    }
  }
}

/**
 * The Python `str` operations the reporter applies to command output,
 * modelled over `seq<char>`.
 */
module PyStr {
  import opened Wrappers

  /** Python's `str.isspace` for one character. */
  predicate IsSpace(c: char) {
    || c == ' '
    || ('\t' <= c <= '\r')
    || ('\U{1C}' <= c <= '\U{1F}')
    || c == '\U{85}' || c == '\U{A0}' || c == '\U{1680}'
    || ('\U{2000}' <= c <= '\U{200A}')
    || c == '\U{2028}' || c == '\U{2029}' || c == '\U{202F}' || c == '\U{205F}' || c == '\U{3000}'
  }

  /** No character of `w` is whitespace. */
  predicate NoSpace(w: string) {
    forall i :: 0 <= i < |w| ==> !IsSpace(w[i])
  }

  /** `s.lstrip()` */
  function TrimStart(s: string): (r: string)
    ensures |r| <= |s| && r == s[|s| - |r|..]
    ensures forall i :: 0 <= i < |s| - |r| ==> IsSpace(s[i])
    ensures r == [] || !IsSpace(r[0])
  {
    if s != [] && IsSpace(s[0]) then TrimStart(s[1..]) else s
  }

  /** `s.rstrip()` */
  function TrimEnd(s: string): (r: string)
    ensures |r| <= |s| && r == s[..|r|]
    ensures forall i :: |r| <= i < |s| ==> IsSpace(s[i])
    ensures r == [] || !IsSpace(r[|r| - 1])
  {
    if s != [] && IsSpace(s[|s| - 1]) then TrimEnd(s[..|s| - 1]) else s
  }

  /** `s.strip()`: the result neither starts nor ends with whitespace, and a string without
      whitespace is left as it is. */
  function Strip(s: string): (r: string)
    ensures |r| <= |s|
    ensures r == [] || (!IsSpace(r[0]) && !IsSpace(r[|r| - 1]))
    ensures NoSpace(s) ==> r == s
  {
    var t := TrimStart(s);
    var r := TrimEnd(t);
    assert r != [] ==> r[0] == t[0];
    r
  }

  /** `s.startswith(p)` */
  predicate StartsWith(s: string, p: string) {
    |p| <= |s| && s[..|p|] == p
  }

  /** `s.endswith(p)` */
  predicate EndsWith(s: string, p: string) {
    |p| <= |s| && s[|s| - |p|..] == p
  }

  /** `p` occurs in `s` at offset `i`. */
  predicate OccursAt(s: string, p: string, i: int) {
    0 <= i && i + |p| <= |s| && s[i..i + |p|] == p
  }

  lemma OccursShift(s: string, p: string, i: nat)
    requires s != []
    ensures OccursAt(s, p, i + 1) <==> OccursAt(s[1..], p, i)
  {
    if i + 1 + |p| <= |s| {
      assert s[i + 1..i + 1 + |p|] == s[1..][i..i + |p|];
    }
  }

  /** `s.find(p)`, with `None` standing for Python's -1: the first offset at which `p` occurs
      (`FindSpec`). */
  function Find(s: string, p: string): (r: Option<nat>)
    ensures r.Some? ==> r.value + |p| <= |s|
    decreases |s|
  {
    if |s| < |p| then None
    else if s[..|p|] == p then Some(0)
    else
      match Find(s[1..], p)
      case None => None
      case Some(k) => Some(k + 1)
  }

  /** `Find` gives the first occurrence, or `None` exactly when there is none. */
  lemma {:induction false} FindSpec(s: string, p: string)
    ensures Find(s, p).Some? ==> OccursAt(s, p, Find(s, p).value)
    ensures Find(s, p).Some? ==> forall i :: 0 <= i < Find(s, p).value ==> !OccursAt(s, p, i)
    ensures Find(s, p).None? ==> forall i :: !OccursAt(s, p, i)
    decreases |s|
  {
    if |s| >= |p| && s[..|p|] != p {
      FindSpec(s[1..], p);
      FindStep(s, p, Find(s[1..], p));
    }
  }

  lemma FindStep(s: string, p: string, rest: Option<nat>)
    requires |p| <= |s| && s[..|p|] != p
    requires rest.Some? ==> OccursAt(s[1..], p, rest.value)
    requires rest.Some? ==> forall i :: 0 <= i < rest.value ==> !OccursAt(s[1..], p, i)
    requires rest.None? ==> forall i :: !OccursAt(s[1..], p, i)
    ensures rest.Some? ==> OccursAt(s, p, rest.value + 1)
    ensures rest.Some? ==> forall i :: 0 <= i < rest.value + 1 ==> !OccursAt(s, p, i)
    ensures rest.None? ==> forall i :: !OccursAt(s, p, i)
  {
    assert !OccursAt(s, p, 0);
    forall i: nat | OccursAt(s, p, i + 1) ensures OccursAt(s[1..], p, i) { OccursShift(s, p, i); }
    forall i: nat | OccursAt(s[1..], p, i) ensures OccursAt(s, p, i + 1) { OccursShift(s, p, i); }
    if rest.Some? {
      forall i | 0 <= i < rest.value + 1 ensures !OccursAt(s, p, i) {
        if i > 0 { assert !OccursAt(s[1..], p, i - 1); }
      }
    } else {
      forall i ensures !OccursAt(s, p, i) {
        if i > 0 { assert !OccursAt(s[1..], p, i - 1); }
      }
    }
  }

  /** `p in s` */
  predicate Contains(s: string, p: string) {
    Find(s, p).Some?
  }

  /** `sep.join(parts)` */
  function Join(parts: seq<string>, sep: string): string {
    if |parts| == 0 then ""
    else if |parts| == 1 then parts[0]
    else parts[0] + sep + Join(parts[1..], sep)
  }

  lemma PrefixBeforeFirst(s: string, p: string, i: nat)
    requires p != [] && OccursAt(s, p, i) && forall j :: 0 <= j < i ==> !OccursAt(s, p, j)
    ensures !Contains(s[..i], p)
  {
    FindSpec(s[..i], p);
    match Find(s[..i], p)
    case None =>
    case Some(j) =>
      assert s[..i][j..j + |p|] == s[j..j + |p|];
      assert OccursAt(s, p, j);
  }

  /** `s.split(sep)` for a non-empty separator: the pieces between the occurrences of `sep`,
      found left to right without overlap. There is more than one piece exactly when `sep`
      occurs; `SplitJoins` shows the pieces are exactly what lies between the separators. */
  function Split(s: string, sep: string): (parts: seq<string>)
    requires sep != []
    ensures |parts| >= 1
    ensures |parts| == 1 <==> !Contains(s, sep)
    decreases |s|
  {
    match Find(s, sep)
    case None => [s]
    case Some(i) => [s[..i]] + Split(s[i + |sep|..], sep)
  }

  /** Joining the pieces again gives `s` back, and no piece holds `sep`. */
  lemma {:induction false} SplitJoins(s: string, sep: string)
    requires sep != []
    ensures Join(Split(s, sep), sep) == s
    ensures forall k :: 0 <= k < |Split(s, sep)| ==> !Contains(Split(s, sep)[k], sep)
    decreases |s|
  {
    FindSpec(s, sep);
    match Find(s, sep)
    case None =>
    case Some(i) =>
      SplitJoins(s[i + |sep|..], sep);
      SplitStep(s, sep, i, Split(s[i + |sep|..], sep));
  }

  /** Cutting at a first occurrence: when `sep` does not occur before the end of `a`, the first
      piece of `a + sep + b` is `a` and the rest is the split of `b`. */
  lemma SplitAt(a: string, sep: string, b: string)
    requires sep != [] && forall j :: 0 <= j < |a| ==> !OccursAt(a + sep + b, sep, j)
    ensures Split(a + sep + b, sep) == [a] + Split(b, sep)
  {
    var s := a + sep + b;
    assert s[|a|..|a| + |sep|] == sep;
    assert OccursAt(s, sep, |a|);
    FindSpec(s, sep);
    assert Find(s, sep) == Some(|a|);
    assert s[..|a|] == a && s[|a| + |sep|..] == b;
  }

  /** A string without the separator is one piece. */
  lemma SplitWhole(a: string, sep: string)
    requires sep != [] && !Contains(a, sep)
    ensures Split(a, sep) == [a]
  {
  }

  /** `SplitAt` for a one-character separator that `a` does not hold. */
  lemma SplitAtChar(a: string, c: char, b: string)
    requires c !in a
    ensures Split(a + [c] + b, [c]) == [a] + Split(b, [c])
  {
    forall j | 0 <= j < |a| ensures !OccursAt(a + [c] + b, [c], j) {
      assert (a + [c] + b)[j] == a[j];
    }
    SplitAt(a, [c], b);
  }

  /** A string without the one-character separator is one piece. */
  lemma SplitNoChar(a: string, c: char)
    requires c !in a
    ensures Split(a, [c]) == [a]
  {
    forall i ensures !OccursAt(a, [c], i) {
      if 0 <= i && i + 1 <= |a| {
        assert a[i..i + 1] == [a[i]];
      }
    }
    FindSpec(a, [c]);
    assert Find(a, [c]).None?;
  }

  lemma SplitStep(s: string, sep: string, i: nat, rest: seq<string>)
    requires sep != [] && OccursAt(s, sep, i) && forall j :: 0 <= j < i ==> !OccursAt(s, sep, j)
    requires |rest| >= 1 && Join(rest, sep) == s[i + |sep|..]
    requires forall k :: 0 <= k < |rest| ==> !Contains(rest[k], sep)
    ensures Join([s[..i]] + rest, sep) == s
    ensures forall k :: 0 <= k < |rest| + 1 ==> !Contains(([s[..i]] + rest)[k], sep)
  {
    JoinCons(s[..i], rest, sep);
    Cut(s, i, i + |sep|);
    PrefixBeforeFirst(s, sep, i);
    var parts := [s[..i]] + rest;
    forall k | 0 <= k < |parts| ensures !Contains(parts[k], sep) {
      if k > 0 { assert parts[k] == rest[k - 1]; }
    }
  }

  /** A sequence is its three pieces put together. */
  lemma Cut<T>(s: seq<T>, i: nat, j: nat)
    requires i <= j <= |s|
    ensures s == s[..i] + s[i..j] + s[j..]
  {
    assert s == s[..i] + s[i..];
    assert s[i..] == s[i..j] + s[j..];
  }

  lemma JoinCons(x: string, rest: seq<string>, sep: string)
    requires |rest| >= 1
    ensures Join([x] + rest, sep) == x + sep + Join(rest, sep)
  {
    assert ([x] + rest)[1..] == rest;
  }

  /** A one-character pattern occurs exactly when the character does. */
  lemma CharContains(s: string, c: char)
    ensures Contains(s, [c]) <==> c in s
  {
    FindSpec(s, [c]);
    if c in s {
      var i :| 0 <= i < |s| && s[i] == c;
      assert s[i..i + 1] == [c];
      assert OccursAt(s, [c], i);
    }
    if Contains(s, [c]) {
      var j := Find(s, [c]).value;
      assert s[j..j + 1] == [c];
      assert s[j] == c;
    }
  }

  /** A character that `s` lacks is in none of its pieces. */
  lemma {:induction false} SplitKeeps(s: string, sep: string, c: char)
    requires sep != [] && c !in s
    ensures forall p :: p in Split(s, sep) ==> c !in p
    decreases |s|
  {
    match Find(s, sep)
    case None =>
    case Some(i) =>
      var rest := s[i + |sep|..];
      assert c !in s[..i] by {
        forall k | 0 <= k < i ensures s[..i][k] != c { assert s[..i][k] == s[k]; }
      }
      assert c !in rest by {
        forall k | 0 <= k < |rest| ensures rest[k] != c { assert rest[k] == s[i + |sep| + k]; }
      }
      SplitKeeps(rest, sep, c);
  }

  /** `s.split(sep)[k]`. Python raises `IndexError` when there are too few pieces; the model
      gives `""` there and states, where it reads a piece, that enough pieces exist. */
  function Piece(s: string, sep: string, k: nat): string
    requires sep != []
  {
    if k < |Split(s, sep)| then Split(s, sep)[k] else ""
  }

  /** `s.split(sep)[0]`: everything before the first `sep`. */
  function Before(s: string, sep: string): string
    requires sep != []
  {
    Piece(s, sep, 0)
  }

  /** `s.split(tag)[1].split(' ')[0]`: the text after the first `tag`, up to the next space. */
  function Field(s: string, tag: string): string
    requires tag != []
  {
    Before(Piece(s, tag, 1), " ")
  }

  /** `s.split(c)[0]` for a single character: all of `s` when `c` does not occur, else the text
      before its first occurrence. */
  lemma BeforeChar(s: string, c: char)
    ensures c !in s ==> Before(s, [c]) == s
    ensures c in s ==>
      |Before(s, [c])| < |s| && s[..|Before(s, [c])|] == Before(s, [c]) && s[|Before(s, [c])|] == c
      && c !in Before(s, [c])
  {
    CharContains(s, c);
    FindSpec(s, [c]);
    if c in s {
      var i := Find(s, [c]).value;
      assert s[i..i + 1] == [c];
      forall j | 0 <= j < i ensures s[..i][j] != c {
        assert !OccursAt(s, [c], j);
        assert s[j..j + 1] == [s[j]];
      }
      assert s == s[..i] + [c] + s[i + 1..];
      SplitAtChar(s[..i], c, s[i + 1..]);
    } else {
      SplitNoChar(s, c);
    }
  }

  /** `s.split(sep)[0]` holds no `sep`. */
  lemma BeforeClean(s: string, sep: string)
    requires sep != []
    ensures !Contains(Before(s, sep), sep)
  {
    SplitJoins(s, sep);
  }

  /** `s.replace(old, repl)`, which Python defines as `repl.join(s.split(old))`. */
  function Replace(s: string, pat: string, repl: string): string
    requires pat != []
  {
    Join(Split(s, pat), repl)
  }

  /** Removing a leading `old` and then every later occurrence gives the rest of the string when
      nothing else matches: `"CfgTRES=cpu=4".replace("CfgTRES=", "") == "cpu=4"`. */
  lemma ReplaceLeading(s: string, pat: string)
    requires pat != [] && StartsWith(s, pat) && !Contains(s[|pat|..], pat)
    ensures Replace(s, pat, "") == s[|pat|..]
  {
    assert OccursAt(s, pat, 0);
    assert Find(s, pat) == Some(0);
    var rest := s[|pat|..];
    assert Split(rest, pat) == [rest];
    assert Split(s, pat) == [[]] + [rest];
    assert Join([[], rest], "") == [] + "" + Join([rest], "");
  }

  /** `w[0] if w` where `w` is a run of non-whitespace: the length of the leading word of `t`. */
  function WordEnd(t: string): (n: nat)
    ensures n <= |t| && NoSpace(t[..n])
    ensures n < |t| ==> IsSpace(t[n])
    ensures t != [] && !IsSpace(t[0]) ==> n >= 1
  {
    if t == [] || IsSpace(t[0]) then 0
    else
      var n := 1 + WordEnd(t[1..]);
      assert t[..n] == [t[0]] + t[1..][..n - 1];
      n
  }

  /** A maximal run of non-whitespace. */
  predicate IsWord(w: string) {
    w != [] && NoSpace(w)
  }

  /** `s.split()`: the runs of non-whitespace, in order. */
  function Words(s: string): (ws: seq<string>)
    ensures forall k :: 0 <= k < |ws| ==> IsWord(ws[k])
    decreases |s|
  {
    var t := TrimStart(s);
    if t == [] then []
    else
      var n := WordEnd(t);
      var w := t[..n];
      assert IsWord(w);
      var rest := Words(t[n..]);
      ConsWords(w, rest);
      [w] + rest
  }

  lemma ConsWords(w: string, rest: seq<string>)
    requires IsWord(w) && forall k :: 0 <= k < |rest| ==> IsWord(rest[k])
    ensures forall k :: 0 <= k < |rest| + 1 ==> IsWord(([w] + rest)[k])
  {
    forall k | 0 <= k < |rest| + 1 ensures IsWord(([w] + rest)[k]) {
      if k > 0 { assert ([w] + rest)[k] == rest[k - 1]; }
    }
  }

  /** A string without whitespace is a single word. */
  lemma WordsOfWord(s: string)
    requires s != [] && NoSpace(s)
    ensures Words(s) == [s]
  {
    assert !IsSpace(s[0]);
    var t := TrimStart(s);
    assert t == s;
    var n := WordEnd(t);
    assert n == |t|;
    assert t[n..] == [];
    assert TrimStart([]) == [];
    assert Words(t[n..]) == [];
    assert t[..n] == s;
    assert Words(s) == [t[..n]] + Words(t[n..]);
  }

  /** `s[1:-1]` */
  function Inner(s: string): (r: string)
    ensures |s| >= 2 ==> s == [s[0]] + r + [s[|s| - 1]]
    ensures |s| < 2 ==> r == []
  {
    if |s| >= 2 then s[1..|s| - 1] else []
  }

  /** The string a loop builds by appending `x + sep` for every `x`: Python's
      `out += f"{x}{sep}"`. */
  function Terminated(xs: seq<string>, sep: string): string {
    if xs == [] then "" else Terminated(xs[..|xs| - 1], sep) + xs[|xs| - 1] + sep
  }

  /** Appending `x + sep` for every item and then cutting the final `sep` gives `sep.join(xs)`,
      and the built string ends with `sep` exactly when there was an item. */
  lemma {:induction false} TerminatedIsJoin(xs: seq<string>, sep: string)
    requires sep != []
    ensures xs != [] ==> Terminated(xs, sep) == Join(xs, sep) + sep
    ensures xs == [] <==> !EndsWith(Terminated(xs, sep), sep)
  {
    if xs != [] {
      var init, x := xs[..|xs| - 1], xs[|xs| - 1];
      TerminatedIsJoin(init, sep);
      JoinSnoc(init, x, sep);
      assert init + [x] == xs;
      var t, j := Terminated(xs, sep), Join(xs, sep);
      if init == [] {
        assert j == x;
      } else {
        assert j == Join(init, sep) + sep + x;
      }
      assert t == j + sep;
      EndsWithSuffix(j, sep);
    }
  }

  lemma EndsWithSuffix(a: string, p: string)
    ensures EndsWith(a + p, p)
  {
    assert (a + p)[|a|..] == p;
  }

  lemma {:induction false} JoinSnoc(xs: seq<string>, x: string, sep: string)
    ensures xs != [] ==> Join(xs + [x], sep) == Join(xs, sep) + sep + x
    ensures xs == [] ==> Join(xs + [x], sep) == x
  {
    if |xs| == 1 {
      assert (xs + [x])[1..] == [x];
    } else if |xs| > 1 {
      assert (xs + [x])[1..] == xs[1..] + [x];
      JoinSnoc(xs[1..], x, sep);
    }
  }

  predicate IsDigit(c: char) {
    '0' <= c <= '9'
  }

  /** A non-empty string of decimal digits. */
  predicate IsNumeral(s: string) {
    s != [] && forall i :: 0 <= i < |s| ==> IsDigit(s[i])
  }

  /** The value of a string of decimal digits; leading zeros are allowed, as `int()` allows them. */
  function NatOf(s: string): nat
    requires forall i :: 0 <= i < |s| ==> IsDigit(s[i])
  {
    if s == [] then 0
    else
      assert IsDigit(s[|s| - 1]);
      NatOf(s[..|s| - 1]) * 10 + (s[|s| - 1] as int - '0' as int)
  }

  /** `int(s)` for a decimal numeral with optional surrounding whitespace. */
  function ToInt(s: string): nat
    requires IsNumeral(Strip(s))
  {
    NatOf(Strip(s))
  }

  function DigitChar(d: nat): (c: char)
    requires d < 10
    ensures IsDigit(c) && c as int - '0' as int == d
  {
    (d + '0' as int) as char
  }

  /** `str(n)` for a natural number: a numeral without leading zeros. */
  function NatToString(n: nat): (s: string)
    ensures IsNumeral(s)
    ensures |s| > 1 ==> s[0] != '0'
  {
    if n < 10 then [DigitChar(n)]
    else NatToString(n / 10) + [DigitChar(n % 10)]
  }

  /** `int(str(n)) == n` */
  lemma {:induction false} NatOfNatToString(n: nat)
    ensures NatOf(NatToString(n)) == n
  {
    if n >= 10 {
      var s := NatToString(n);
      assert s[..|s| - 1] == NatToString(n / 10);
      NatOfNatToString(n / 10);
    }
  }
}
