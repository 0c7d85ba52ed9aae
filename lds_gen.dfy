/**
 * lds-gen.py: reads declaration lines, keeps the names of the public `serdes_`
 * functions that are not marked unused, and prints a linker version script that
 * exports exactly those names.
 *
 * The line pattern of lds-gen.py:18 is
 *     ^(\S+.*\s+\**)?(serdes_\S+)\s*\([^)]
 * and is modelled below piece by piece, with Python's character classes for
 * `str` patterns (`\s` is `str.isspace`, `.` is anything but a newline).
 */
module LdsGen {
  import opened Common

  // ---------------------------------------------------------------------------
  // The regular expression of lds-gen.py:18
  // ---------------------------------------------------------------------------

  /** `\s`: the characters for which Python's `str.isspace` holds. */
  predicate IsSpace(c: char) {
    || c == ' '
    || '\t' <= c <= '\r'
    || '\U{1C}' <= c <= '\U{1F}'
    || c == '\U{85}' || c == '\U{A0}' || c == '\U{1680}'
    || '\U{2000}' <= c <= '\U{200A}'
    || c == '\U{2028}' || c == '\U{2029}' || c == '\U{202F}' || c == '\U{205F}' || c == '\U{3000}'
  }

  /** s[i..j] matches `\S*`. */
  predicate AllNonSpace(s: string, i: nat, j: nat)
    requires i <= j <= |s|
  {
    forall k | i <= k < j :: !IsSpace(s[k])
  }

  /** s[i..j] matches `\s*`. */
  predicate AllSpace(s: string, i: nat, j: nat)
    requires i <= j <= |s|
  {
    forall k | i <= k < j :: IsSpace(s[k])
  }

  /** s[i..j] matches `\**`. */
  predicate AllStars(s: string, i: nat, j: nat)
    requires i <= j <= |s|
  {
    forall k | i <= k < j :: s[k] == '*'
  }

  /** s[i..j] matches `.*`. */
  predicate NoNewline(s: string, i: nat, j: nat)
    requires i <= j <= |s|
  {
    forall k | i <= k < j :: s[k] != '\n'
  }

  /** Group 1, `\S+.*\s+\**`, matches s[0..q]: `\S+` is s[0..a], `.*` is s[a..b],
      `\s+` is s[b..c] and `\**` is s[c..q]. */
  predicate TypePrefix(s: string, q: nat)
    requires q <= |s|
  {
    exists a, b, c | 1 <= a <= b < c <= q ::
      AllNonSpace(s, 0, a) && NoNewline(s, a, b) && AllSpace(s, b, c) && AllStars(s, c, q)
  }

  /** `\s*\([^)]` matches at position r: blanks, an opening parenthesis, and one more
      character that is not a closing parenthesis. */
  predicate ParenFollows(s: string, r: nat)
    requires r <= |s|
  {
    exists t | r <= t < |s| - 1 :: AllSpace(s, r, t) && s[t] == '(' && s[t + 1] != ')'
  }

  /** Group 2, `serdes_\S+`, matches s[q..r], and the rest of the pattern follows it. */
  predicate NameAt(s: string, q: nat, r: nat)
    requires q <= r <= |s|
  {
    q + 7 < r && s[q..q + 7] == "serdes_" && AllNonSpace(s, q + 7, r) && ParenFollows(s, r)
  }

  /** Group 2 can begin at q. */
  predicate StartsName(s: string, q: nat)
    requires q <= |s|
  {
    exists r | q <= r <= |s| :: NameAt(s, q, r)
  }

  /** Group 2 may begin at q: at 0 when the optional group 1 is skipped, else where
      group 1 ends. */
  predicate GroupStart(s: string, q: nat)
    requires q <= |s|
  {
    q == 0 || TypePrefix(s, q)
  }

  /** `re.match(pattern, s)` succeeds. */
  predicate LineMatches(s: string) {
    exists q, r | 0 <= q <= r <= |s| :: GroupStart(s, q) && NameAt(s, q, r)
  }

  /** The greatest q in (0, hi] where group 1 can end and group 2 can follow. */
  function LastTypedStart(s: string, hi: nat): (m: Option<nat>)
    requires hi <= |s|
    ensures m.Some? ==> 0 < m.value <= hi && TypePrefix(s, m.value) && StartsName(s, m.value)
    ensures forall q | (if m.Some? then m.value else 0) < q <= hi :: !(TypePrefix(s, q) && StartsName(s, q))
  {
    if hi == 0 then None
    else if TypePrefix(s, hi) && StartsName(s, hi) then Some(hi)
    else LastTypedStart(s, hi - 1)
  }

  /** The greatest r in [q, hi] such that group 2 spans s[q..r]. */
  function LastNameEnd(s: string, q: nat, hi: nat): (r: nat)
    requires q <= hi <= |s|
    requires exists r | q <= r <= hi :: NameAt(s, q, r)
    ensures q <= r <= hi && NameAt(s, q, r)
    ensures forall r' | r < r' <= hi :: !NameAt(s, q, r')
    decreases hi
  {
    if NameAt(s, q, hi) then hi else LastNameEnd(s, q, hi - 1)
  }

  /** Where `re.match` starts group 2. Python's matcher tries the greedy optional
      group 1 before skipping it, and a longer group 1 before a shorter one, so the
      capture starts at the latest position that group 1 can reach; only when there
      is none does it start at 0. */
  function NameStart(s: string): (q: nat)
    requires LineMatches(s)
    ensures q <= |s| && GroupStart(s, q) && StartsName(s, q)
    ensures forall q' | q < q' <= |s| :: !(TypePrefix(s, q') && StartsName(s, q'))
  {
    match LastTypedStart(s, |s|)
    case Some(q) => q
    case None =>
      assert StartsName(s, 0) by {
        var q, r :| 0 <= q <= r <= |s| && GroupStart(s, q) && NameAt(s, q, r);
        assert !(TypePrefix(s, q) && StartsName(s, q)) || q == 0;
      }
      0
  }

  /** What group 2 captures begins with `serdes_` and holds no blank. */
  lemma NameShape(line: string, q: nat, r: nat)
    requires q <= r <= |line| && NameAt(line, q, r)
    ensures IsPrefix("serdes_", line[q..r]) && |line[q..r]| > 7
    ensures AllNonSpace(line[q..r], 0, r - q)
  {
    assert line[q..r][..7] == line[q..q + 7];
    forall k | 0 <= k < r - q ensures !IsSpace(line[q..r][k]) {
      assert line[q..r][k] == line[q + k];
    }
  }

  /** `m.group(2)` when the pattern matches `line`, None otherwise. */
  function MatchName(line: string): (m: Option<string>)
    ensures m.Some? <==> LineMatches(line)
    ensures m.Some? ==> IsPrefix("serdes_", m.value) && |m.value| > 7
    ensures m.Some? ==> AllNonSpace(m.value, 0, |m.value|)
  {
    if LineMatches(line) then
      var q := NameStart(line);
      var r := LastNameEnd(line, q, |line|);
      NameShape(line, q, r);
      Some(line[q..r])
    else
      None
  }

  /** The capture is the one Python's backtracking matcher reports: among all ways to
      match, group 2 starts as late as possible (greedy optional group 1, tried before
      being skipped) and, from there, ends as late as possible (greedy `\S+`). */
  lemma CaptureIsLatestLongest(line: string)
    requires LineMatches(line)
    ensures exists q, r | 0 <= q <= r <= |line| ::
      && MatchName(line) == Some(line[q..r]) && GroupStart(line, q) && NameAt(line, q, r)
      && (forall q' | q < q' <= |line| :: !(TypePrefix(line, q') && StartsName(line, q')))
      && (forall r' | r < r' <= |line| :: !NameAt(line, q, r'))
  {
    var q := NameStart(line);
    var r := LastNameEnd(line, q, |line|);
    assert MatchName(line) == Some(line[q..r]);
  }

  /** A declaration whose only parentheses are empty (`f()`) is not a match: the
      character after `(` must not be `)`. */
  lemma EmptyParensDoNotMatch(line: string)
    requires forall t | 0 <= t < |line| - 1 :: line[t] == '(' ==> line[t + 1] == ')'
    ensures MatchName(line) == None
  {
    assert forall r | 0 <= r <= |line| :: !ParenFollows(line, r);
  }

  /** A line that starts with a blank never matches: `^` anchors the pattern, group 1
      must start with `\S`, and group 2 with `s`. */
  lemma IndentedLinesDoNotMatch(line: string)
    requires |line| > 0 && IsSpace(line[0])
    ensures MatchName(line) == None
  {
    assert forall a | 1 <= a <= |line| :: !AllNonSpace(line, 0, a);
    assert forall q | 0 < q <= |line| :: !TypePrefix(line, q);
    assert !StartsName(line, 0) by {
      if |line| >= 7 {
        assert line[0..7][0] == line[0];
      }
    }
  }

  // ---------------------------------------------------------------------------
  // The scan over the input lines (lds-gen.py:14-27)
  // ---------------------------------------------------------------------------

  /** `re.match(r'(SERDES_UNUSED|__attribute__\(\(unused\)\))', last_line)`. */
  predicate MarkedUnused(line: string) {
    IsPrefix("SERDES_UNUSED", line) || IsPrefix("__attribute__((unused))", line)
  }

  /** What the loop carries from one line to the next: `funcs` and `last_line`. */
  datatype ScanState = ScanState(funcs: seq<string>, lastLine: string)

  /** One iteration of the loop body. */
  function Step(st: ScanState, line: string): ScanState {
    match MatchName(line)
    case Some(sym) => ScanState(if MarkedUnused(st.lastLine) then st.funcs else st.funcs + [sym], "")
    case None => ScanState(st.funcs, line)
  }

  /** The loop state after reading `lines`, starting from `funcs = []`, `last_line = ''`. */
  function Scan(lines: seq<string>): ScanState {
    if lines == [] then ScanState([], "") else Step(Scan(lines[..|lines| - 1]), lines[|lines| - 1])
  }

  /** The `for line in sys.stdin` loop. */
  method CollectSymbols(lines: seq<string>) returns (funcs: seq<string>)
    ensures funcs == Scan(lines).funcs
  {
    funcs := [];
    var lastLine := "";
    for i := 0 to |lines|
      invariant ScanState(funcs, lastLine) == Scan(lines[..i])
    {
      assert lines[..i + 1][..i] == lines[..i];
      var line := lines[i];
      var m := MatchName(line);
      if m.Some? {
        var sym := m.value;
        if !MarkedUnused(lastLine) {
          funcs := funcs + [sym];
        }
        lastLine := "";
      } else {
        lastLine := line;
      }
    }
    assert lines[..|lines|] == lines;
  }

  /** The line the loop remembers when it reaches line i: the previous line, unless
      that line was itself a match (then it was reset to ''). */
  function LookBack(lines: seq<string>, i: nat): string
    requires i <= |lines|
  {
    if i == 0 || MatchName(lines[i - 1]).Some? then "" else lines[i - 1]
  }

  /** Line i is a declaration that lands in `funcs`: it matches, and it does not
      directly follow a non-matching line that starts with an unused marker. */
  predicate Exported(lines: seq<string>, i: nat)
    requires i < |lines|
  {
    MatchName(lines[i]).Some? && !(i > 0 && MatchName(lines[i - 1]).None? && MarkedUnused(lines[i - 1]))
  }

  /** The names of the exported lines, in input order: a definition that looks at each
      line and its predecessor only, without loop state. */
  function ExportedNames(lines: seq<string>): seq<string> {
    if lines == [] then []
    else
      var i := |lines| - 1;
      ExportedNames(lines[..i]) + (if Exported(lines, i) then [MatchName(lines[i]).value] else [])
  }

  /** The loop is a two-line sliding window: what it collects is exactly ExportedNames,
      and what it remembers is exactly LookBack. */
  lemma {:induction false} ScanIsSlidingWindow(lines: seq<string>)
    ensures Scan(lines).lastLine == LookBack(lines, |lines|)
    ensures Scan(lines).funcs == ExportedNames(lines)
  {
    if lines != [] {
      var i := |lines| - 1;
      var init := lines[..i];
      ScanIsSlidingWindow(init);
      assert LookBack(init, |init|) == LookBack(lines, i) by {
        if i > 0 { assert init[i - 1] == lines[i - 1]; }
      }
      assert ExportedNames(lines) == ExportedNames(init) + (if Exported(lines, i) then [MatchName(lines[i]).value] else []);
    }
  }

  /** Every collected name starts with `serdes_`. */
  lemma {:induction false} CollectedNamesArePublic(lines: seq<string>)
    ensures forall f | f in Scan(lines).funcs :: IsPrefix("serdes_", f) && |f| > 7
  {
    if lines != [] {
      var init := lines[..|lines| - 1];
      CollectedNamesArePublic(init);
      StepKeepsNamesPublic(Scan(init), lines[|lines| - 1]);
    }
  }

  lemma StepKeepsNamesPublic(st: ScanState, line: string)
    requires forall f | f in st.funcs :: IsPrefix("serdes_", f) && |f| > 7
    ensures forall f | f in Step(st, line).funcs :: IsPrefix("serdes_", f) && |f| > 7
  {
    var m := MatchName(line);
    if m.Some? {
      var sym := m.value;
      assert IsPrefix("serdes_", sym) && |sym| > 7;
      var next := if MarkedUnused(st.lastLine) then st.funcs else st.funcs + [sym];
      assert Step(st, line).funcs == next;
      forall f | f in next ensures IsPrefix("serdes_", f) && |f| > 7 {
        if f !in st.funcs { assert f == sym; }
      }
    } else {
      assert Step(st, line).funcs == st.funcs;
    }
  }

  /** A line that does not match leaves the collected names alone and becomes the
      remembered line. */
  lemma NonMatchingLineOnlyUpdatesLookBack(lines: seq<string>, line: string)
    requires MatchName(line).None?
    ensures Scan(lines + [line]) == ScanState(Scan(lines).funcs, line)
  {
    assert (lines + [line])[..|lines|] == lines;
  }

  /** A marker suppresses at most one declaration: a match that directly follows
      another match is always exported. */
  lemma MarkerSuppressesAtMostOne(lines: seq<string>, i: nat)
    requires 0 < i < |lines|
    requires MatchName(lines[i - 1]).Some? && MatchName(lines[i]).Some?
    ensures Exported(lines, i)
  {
  }

  /** A matching line is dropped exactly when the line before it did not match and
      starts with `SERDES_UNUSED` or `__attribute__((unused))`. */
  lemma {:induction false} DroppedIffMarked(lines: seq<string>, line: string)
    requires MatchName(line).Some?
    ensures Scan(lines + [line]).funcs ==
      if MarkedUnused(LookBack(lines, |lines|)) then Scan(lines).funcs
      else Scan(lines).funcs + [MatchName(line).value]
    ensures MarkedUnused(LookBack(lines, |lines|)) <==>
      (|lines| > 0 && MatchName(lines[|lines| - 1]).None? && MarkedUnused(lines[|lines| - 1]))
  {
    assert (lines + [line])[..|lines|] == lines;
    ScanIsSlidingWindow(lines);
  }

  // ---------------------------------------------------------------------------
  // `sorted(funcs)`: Python's ordering of `str` values
  // ---------------------------------------------------------------------------

  /** `a <= b` on Python strings: lexicographic by code point, a prefix first. */
  predicate StrLe(a: string, b: string) {
    if a == [] then true
    else if b == [] then false
    else if a[0] != b[0] then a[0] < b[0]
    else StrLe(a[1..], b[1..])
  }

  lemma {:induction false} StrLeReflexive(a: string)
    ensures StrLe(a, a)
  {
    if a != [] {
      StrLeReflexive(a[1..]);
    }
  }

  lemma {:induction false} StrLeTotal(a: string, b: string)
    ensures StrLe(a, b) || StrLe(b, a)
  {
    if a != [] && b != [] && a[0] == b[0] {
      StrLeTotal(a[1..], b[1..]);
    }
  }

  lemma {:induction false} StrLeAntisymmetric(a: string, b: string)
    requires StrLe(a, b) && StrLe(b, a)
    ensures a == b
  {
    if a != [] && b != [] {
      StrLeAntisymmetric(a[1..], b[1..]);
      assert a == [a[0]] + a[1..] && b == [b[0]] + b[1..];
    }
  }

  lemma {:induction false} StrLeTransitive(a: string, b: string, c: string)
    requires StrLe(a, b) && StrLe(b, c)
    ensures StrLe(a, c)
  {
    if a != [] && b != [] && c != [] && a[0] == b[0] == c[0] {
      StrLeTransitive(a[1..], b[1..], c[1..]);
    }
  }

  predicate Sorted(xs: seq<string>) {
    forall i, j | 0 <= i < j < |xs| :: StrLe(xs[i], xs[j])
  }

  /** Inserts x into a sorted sequence. */
  function Insert(x: string, ys: seq<string>): (r: seq<string>)
    requires Sorted(ys)
    ensures Sorted(r) && multiset(r) == multiset(ys) + multiset{x} && |r| == |ys| + 1
  {
    if ys == [] || StrLe(x, ys[0]) then
      var r := [x] + ys;
      assert Sorted(r) by {
        forall i, j | 0 <= i < j < |r| ensures StrLe(r[i], r[j]) {
          if i == 0 && j > 1 { StrLeTransitive(x, ys[0], r[j]); }
        }
      }
      r
    else
      StrLeTotal(x, ys[0]);
      assert ys == [ys[0]] + ys[1..];
      var rest := Insert(x, ys[1..]);
      ConsSorted(ys[0], rest, x, ys[1..]);
      [ys[0]] + rest
  }

  /** A lower bound of `x` and of all of `ys` can head the sorted insertion of `x` into `ys`. */
  lemma ConsSorted(h: string, rest: seq<string>, x: string, ys: seq<string>)
    requires Sorted(rest) && multiset(rest) == multiset(ys) + multiset{x}
    requires StrLe(h, x) && forall k | 0 <= k < |ys| :: StrLe(h, ys[k])
    ensures Sorted([h] + rest)
  {
    var r := [h] + rest;
    forall i, j | 0 <= i < j < |r| ensures StrLe(r[i], r[j]) {
      if i == 0 {
        var e := rest[j - 1];
        assert e in multiset(rest);
        if e != x {
          assert e in multiset(ys);
          var k :| 0 <= k < |ys| && ys[k] == e;
        }
      }
    }
  }

  /** `sorted(funcs)`: the names in ascending order, duplicates included. */
  function SortNames(xs: seq<string>): (r: seq<string>)
    ensures Sorted(r) && multiset(r) == multiset(xs) && |r| == |xs|
  {
    if xs == [] then []
    else
      assert xs == xs[..|xs| - 1] + [xs[|xs| - 1]];
      Insert(xs[|xs| - 1], SortNames(xs[..|xs| - 1]))
  }

  /** The first element of a sorted sequence is below every element. */
  lemma SortedHeadIsLeast(a: seq<string>, e: string)
    requires Sorted(a) && e in multiset(a)
    ensures StrLe(a[0], e)
  {
    var k :| 0 <= k < |a| && a[k] == e;
    if k == 0 { StrLeReflexive(e); }
  }

  lemma SortedTail(a: seq<string>)
    requires Sorted(a) && a != []
    ensures Sorted(a[1..])
  {
    forall i, j | 0 <= i < j < |a| - 1 ensures StrLe(a[1..][i], a[1..][j]) {
      assert a[1..][i] == a[i + 1] && a[1..][j] == a[j + 1];
    }
  }

  /** There is only one sorted arrangement of a multiset of names, so SortNames agrees
      with Python's `sorted` whatever algorithm that uses. */
  lemma {:induction false} SortedPermutationIsUnique(a: seq<string>, b: seq<string>)
    requires Sorted(a) && Sorted(b) && multiset(a) == multiset(b)
    ensures a == b
  {
    if a != [] {
      assert b != [] by { assert a[0] in multiset(a); }
      assert a[0] == b[0] by {
        assert a[0] in multiset(b) && b[0] in multiset(a);
        SortedHeadIsLeast(a, b[0]);
        SortedHeadIsLeast(b, a[0]);
        StrLeAntisymmetric(a[0], b[0]);
      }
      assert a[1..] == b[1..] by {
        MultisetOfTail(a);
        MultisetOfTail(b);
        SortedTail(a);
        SortedTail(b);
        SortedPermutationIsUnique(a[1..], b[1..]);
      }
      assert a == [a[0]] + a[1..] && b == [b[0]] + b[1..];
    }
  }

  lemma MultisetOfTail(a: seq<string>)
    requires a != []
    ensures multiset(a[1..]) == multiset(a) - multiset{a[0]}
  {
    assert a == [a[0]] + a[1..];
  }

  // ---------------------------------------------------------------------------
  // Emission of the version script (lds-gen.py:33-43)
  // ---------------------------------------------------------------------------

  const Banner := "# Automatically generated by lds-gen.py - DO NOT EDIT"
  const OpenGlobal := "{\n global:"
  const Wildcard := "    *;"
  const LocalWildcard := "local:\n    *;"
  const Close := "};"

  /** `'    %s;' % f`. */
  function SymbolLine(f: string): string {
    "    " + f + ";"
  }

  /** The strings passed to `print`, in order: the version script for `funcs`. */
  function Script(funcs: seq<string>): seq<string> {
    if |funcs| == 0 then [Banner, OpenGlobal, Wildcard, Close]
    else [Banner, OpenGlobal] + SymbolLines(SortNames(funcs)) + [LocalWildcard, Close]
  }

  function SymbolLines(fs: seq<string>): seq<string> {
    seq(|fs|, i requires 0 <= i < |fs| => SymbolLine(fs[i]))
  }

  /** `print` appends a newline to each string. */
  function Text(out: seq<string>): string {
    if out == [] then "" else out[0] + "\n" + Text(out[1..])
  }

  /** The print statements of lds-gen.py:33-43. */
  method Emit(funcs: seq<string>) returns (out: seq<string>)
    ensures out == Script(funcs)
  {
    out := [Banner, OpenGlobal];
    if |funcs| == 0 {
      out := out + [Wildcard];
    } else {
      var sorted := SortNames(funcs);
      for i := 0 to |sorted|
        invariant out == [Banner, OpenGlobal] + SymbolLines(sorted[..i])
      {
        assert SymbolLines(sorted[..i + 1]) == SymbolLines(sorted[..i]) + [SymbolLine(sorted[i])];
        out := out + [SymbolLine(sorted[i])];
      }
      assert sorted[..|sorted|] == sorted;
      out := out + [LocalWildcard];
    }
    out := out + [Close];
  }

  /** The whole script: scan standard input, then print. */
  method Generate(lines: seq<string>) returns (out: seq<string>)
    ensures out == Script(Scan(lines).funcs)
  {
    var funcs := CollectSymbols(lines);
    out := Emit(funcs);
  }

  /** The script always opens with the banner and ` global:` and ends with `};`. */
  lemma ScriptFrame(funcs: seq<string>)
    ensures |Script(funcs)| >= 4
    ensures Script(funcs)[0] == Banner && Script(funcs)[1] == OpenGlobal
    ensures Script(funcs)[|Script(funcs)| - 1] == Close
  {
  }

  /** With no symbols the global section is the single `*;` and there is no `local:`. */
  lemma EmptyScript()
    ensures Script([]) == [Banner, OpenGlobal, Wildcard, Close]
    ensures LocalWildcard !in Script([])
    ensures Text(Script([])) ==
      "# Automatically generated by lds-gen.py - DO NOT EDIT\n{\n global:\n    *;\n};\n"
  {
    var s := Script([]);
    assert s[1..][1..][1..][1..] == [];
    assert Text(s[3..]) == Close + "\n";
    assert Text(s[2..]) == Wildcard + "\n" + Close + "\n";
    assert Text(s[1..]) == OpenGlobal + "\n" + Wildcard + "\n" + Close + "\n";
  }

  /** With symbols, the lines between ` global:` and `local:` are the names in
      ascending order, each once per occurrence in `funcs`, and `local:` hides the rest. */
  lemma ScriptListsSortedNames(funcs: seq<string>, sorted: seq<string>)
    requires |funcs| > 0
    requires Sorted(sorted) && multiset(sorted) == multiset(funcs)
    ensures |sorted| == |funcs| && |Script(funcs)| == |funcs| + 4
    ensures forall i | 0 <= i < |funcs| :: Script(funcs)[i + 2] == SymbolLine(sorted[i])
    ensures Script(funcs)[|funcs| + 2] == LocalWildcard
  {
    SortedPermutationIsUnique(SortNames(funcs), sorted);
    var body := SymbolLines(sorted);
    assert Script(funcs) == [Banner, OpenGlobal] + body + [LocalWildcard, Close];
  }

  /** `line` is the symbol line of a public `serdes_` function among `names`. */
  predicate NamesPublicSymbol(line: string, names: seq<string>) {
    exists f | f in names :: IsPrefix("serdes_", f) && line == SymbolLine(f)
  }

  /** Each line between ` global:` and the closing pair is the symbol line of one of
      `funcs`, provided they are all public. */
  lemma ScriptLinesComeFromFuncs(funcs: seq<string>)
    requires forall f | f in funcs :: IsPrefix("serdes_", f)
    ensures forall i | 2 <= i < |Script(funcs)| - 2 :: NamesPublicSymbol(Script(funcs)[i], funcs)
  {
    var script := Script(funcs);
    if |funcs| > 0 {
      var sorted := SortNames(funcs);
      var body := SymbolLines(sorted);
      assert script == [Banner, OpenGlobal] + body + [LocalWildcard, Close];
      forall i | 2 <= i < |script| - 2
        ensures NamesPublicSymbol(script[i], funcs)
      {
        assert script[i] == body[i - 2];
        BodyLineIsPublic(sorted, funcs, i - 2);
      }
    } else {
      assert |script| == 4;
    }
  }

  /** A symbol line of a rearrangement of `funcs` names one of `funcs`. */
  lemma BodyLineIsPublic(sorted: seq<string>, funcs: seq<string>, k: nat)
    requires multiset(sorted) == multiset(funcs) && k < |sorted|
    requires forall f | f in funcs :: IsPrefix("serdes_", f)
    ensures NamesPublicSymbol(SymbolLines(sorted)[k], funcs)
  {
    assert sorted[k] in multiset(sorted);
    assert sorted[k] in funcs;
  }

  /** For every input, each symbol line of the script names a public `serdes_`
      function that was exported from the input. */
  lemma GeneratedSymbolsArePublic(lines: seq<string>)
    ensures forall i | 2 <= i < |Script(Scan(lines).funcs)| - 2 ::
      NamesPublicSymbol(Script(Scan(lines).funcs)[i], ExportedNames(lines))
  {
    ScanIsSlidingWindow(lines);
    CollectedNamesArePublic(lines);
    ScriptLinesComeFromFuncs(ExportedNames(lines));
  }
}
