/**
 * The per-line filter of `load_graph`: a line of the edge list is split into
 * whitespace-separated tokens, the tokens that parse as a `usize` are kept,
 * and the line yields one canonical undirected edge `(min, max)` when exactly
 * two values survive and they differ.
 */
module LineFilter {
  import opened Wrappers

  /** The largest `usize` on a 64-bit target. */
  const UsizeMax: nat := 0xFFFF_FFFF_FFFF_FFFF

  /** Rust's `char::is_whitespace`: the characters with the Unicode White_Space property. */
  predicate IsWhitespace(c: char) {
    var k := c as int;
    (0x09 <= k <= 0x0D) || k == 0x20 || k == 0x85 || k == 0xA0 || k == 0x1680
    || (0x2000 <= k <= 0x200A) || k == 0x2028 || k == 0x2029 || k == 0x202F
    || k == 0x205F || k == 0x3000
  }

  /** `line.trim().is_empty()`: nothing but whitespace. */
  predicate IsBlank(s: string) {
    forall i :: 0 <= i < |s| ==> IsWhitespace(s[i])
  }

  predicate NoWhitespace(s: string) {
    forall i :: 0 <= i < |s| ==> !IsWhitespace(s[i])
  }

  /** `line.starts_with('#')`. */
  predicate IsComment(line: string) {
    |line| > 0 && line[0] == '#'
  }

  // ---------------------------------------------------------------------------
  // split_whitespace
  // ---------------------------------------------------------------------------

  /** Length of the longest whitespace-free prefix of `s`. */
  function WordLength(s: string): (k: nat)
    ensures k <= |s| && NoWhitespace(s[..k])
    ensures k < |s| ==> IsWhitespace(s[k])
  {
    if s == [] || IsWhitespace(s[0]) then 0 else 1 + WordLength(s[1..])
  }

  /** `str::split_whitespace`: the maximal runs of non-whitespace characters, in order. */
  function Tokens(s: string): (ts: seq<string>)
    ensures forall i :: 0 <= i < |ts| ==> ts[i] != [] && NoWhitespace(ts[i])
    decreases |s|
  {
    if s == [] then []
    else if IsWhitespace(s[0]) then Tokens(s[1..])
    else
      var k := WordLength(s);
      [s[..k]] + Tokens(s[k..])
  }

  /** The non-whitespace characters of `s`, in order. */
  function Visible(s: string): string {
    if s == [] then [] else (if IsWhitespace(s[0]) then [] else [s[0]]) + Visible(s[1..])
  }

  function Concat(ts: seq<string>): string {
    if ts == [] then [] else ts[0] + Concat(ts[1..])
  }

  /** Tokens separated by single spaces. */
  function JoinSpaced(ts: seq<string>): string {
    if ts == [] then []
    else if |ts| == 1 then ts[0]
    else ts[0] + " " + JoinSpaced(ts[1..])
  }

  lemma {:induction false} VisiblePrefix(s: string, k: nat)
    requires k <= |s| && forall i :: 0 <= i < k ==> !IsWhitespace(s[i])
    ensures Visible(s) == s[..k] + Visible(s[k..])
  {
    if k > 0 {
      VisiblePrefix(s[1..], k - 1);
      assert s[1..][k - 1..] == s[k..];
      assert s[..k] == [s[0]] + s[1..][..k - 1];
    }
  }

  /** Splitting drops exactly the whitespace: the tokens, glued together, are the visible characters. */
  lemma {:induction false} TokensKeepVisible(s: string)
    ensures Concat(Tokens(s)) == Visible(s)
    decreases |s|
  {
    if s == [] {
    } else if IsWhitespace(s[0]) {
      TokensKeepVisible(s[1..]);
    } else {
      var k := WordLength(s);
      VisiblePrefix(s, k);
      TokensKeepVisible(s[k..]);
    }
  }

  /** A line has no tokens exactly when it is blank, so the source's blank-line test agrees with splitting. */
  lemma {:induction false} TokensEmptyIffBlank(s: string)
    ensures Tokens(s) == [] <==> IsBlank(s)
    decreases |s|
  {
    if s != [] {
      TokensEmptyIffBlank(s[1..]);
      if IsWhitespace(s[0]) {
        assert IsBlank(s) <==> IsBlank(s[1..]) by {
          if IsBlank(s[1..]) {
            forall i | 0 <= i < |s| ensures IsWhitespace(s[i]) {
              if i > 0 { assert s[i] == s[1..][i - 1]; }
            }
          }
          if IsBlank(s) {
            forall i | 0 <= i < |s[1..]| ensures IsWhitespace(s[1..][i]) {
              assert s[1..][i] == s[i + 1];
            }
          }
        }
      }
    }
  }

  lemma WordLengthOfWord(w: string, rest: string)
    requires NoWhitespace(w)
    requires rest == [] || IsWhitespace(rest[0])
    ensures WordLength(w + rest) == |w|
    decreases |w|
  {
    if w != [] {
      assert (w + rest)[1..] == w[1..] + rest;
      WordLengthOfWord(w[1..], rest);
    } else {
      assert w + rest == rest;
    }
  }

  /** Splitting undoes joining with single spaces. */
  lemma {:induction false} TokensOfJoin(ts: seq<string>)
    requires forall i :: 0 <= i < |ts| ==> ts[i] != [] && NoWhitespace(ts[i])
    ensures Tokens(JoinSpaced(ts)) == ts
  {
    if |ts| == 1 {
      var w := ts[0];
      WordLengthOfWord(w, []);
      assert w + [] == w;
      assert w[..|w|] == w && w[|w|..] == [];
    } else if |ts| > 1 {
      var w, tail := ts[0], JoinSpaced(ts[1..]);
      var s := w + " " + tail;
      assert s == w + (" " + tail);
      WordLengthOfWord(w, " " + tail);
      assert s[..|w|] == w;
      var after := s[|w|..];
      assert after == " " + tail;
      assert after[1..] == tail;
      TokensOfJoin(ts[1..]);
      assert Tokens(s) == [w] + Tokens(after);
      assert Tokens(after) == Tokens(tail);
    }
  }

  // ---------------------------------------------------------------------------
  // str::parse::<usize>
  // ---------------------------------------------------------------------------

  predicate IsDigit(c: char) {
    '0' <= c <= '9'
  }

  predicate AllDigits(s: string) {
    forall i :: 0 <= i < |s| ==> IsDigit(s[i])
  }

  /** The decimal value of a digit string, most significant digit first. */
  function DigitsValue(ds: string): nat
    requires AllDigits(ds)
  {
    if ds == [] then 0
    else DigitsValue(ds[..|ds| - 1]) * 10 + ((ds[|ds| - 1] as int) - ('0' as int))
  }

  /**
   * `usize::from_str`: an optional leading `+` (not on its own), then one or more
   * ASCII digits whose value fits in a 64-bit `usize`. A `-` sign, any other
   * character, an empty string and an overflowing value are all rejected.
   */
  function ParseUsize(t: string): (r: Option<nat>)
    ensures r.Some? ==> r.value <= UsizeMax
    ensures |t| > 0 && t[0] == '-' ==> r.None?
  {
    var ds := if |t| > 1 && t[0] == '+' then t[1..] else t;
    if ds != [] && AllDigits(ds) && DigitsValue(ds) <= UsizeMax then Some(DigitsValue(ds)) else None
  }

  function DigitChar(d: nat): (c: char)
    requires d < 10
    ensures IsDigit(c) && c as int == ('0' as int) + d
  {
    (('0' as int) + d) as char
  }

  /** The decimal rendering of `n`, without sign or leading zeros. */
  function Decimal(n: nat): (s: string)
    ensures s != [] && AllDigits(s)
  {
    if n < 10 then [DigitChar(n)] else Decimal(n / 10) + [DigitChar(n % 10)]
  }

  lemma {:induction false} DecimalValue(n: nat)
    ensures DigitsValue(Decimal(n)) == n
  {
    if n >= 10 {
      var s := Decimal(n);
      DecimalValue(n / 10);
      assert s[..|s| - 1] == Decimal(n / 10);
    }
  }

  lemma DigitsHaveNoWhitespace(s: string)
    requires AllDigits(s)
    ensures NoWhitespace(s)
  {
  }

  /** Parsing undoes printing for every value that fits a `usize`. */
  lemma {:induction false} ParseDecimal(n: nat)
    requires n <= UsizeMax
    ensures ParseUsize(Decimal(n)) == Some(n)
    ensures ParseUsize("+" + Decimal(n)) == Some(n)
  {
    var s := Decimal(n);
    DecimalValue(n);
    assert ("+" + s)[1..] == s;
  }

  // ---------------------------------------------------------------------------
  // filter_map(parse) and the edge of a line
  // ---------------------------------------------------------------------------

  /** The parse result of every token, in order. */
  function Parses(ts: seq<string>): (os: seq<Option<nat>>)
    ensures |os| == |ts| && forall i :: 0 <= i < |ts| ==> os[i] == ParseUsize(ts[i])
  {
    seq(|ts|, i requires 0 <= i < |ts| => ParseUsize(ts[i]))
  }

  /** The values inside the `Some`s of `os`, in order: `filter_map` after the parse. */
  function Somes(os: seq<Option<nat>>): (vs: seq<nat>)
    ensures |vs| <= |os|
  {
    if os == [] then []
    else (if os[0].Some? then [os[0].value] else []) + Somes(os[1..])
  }

  /** `tokens.filter_map(|x| x.parse::<usize>().ok()).collect()`. */
  function ParsedValues(ts: seq<string>): seq<nat> {
    Somes(Parses(ts))
  }

  /** No entry of `os` outside positions `i` and `j` is a `Some`. */
  ghost predicate NoneElsewhere(os: seq<Option<nat>>, i: int, j: int) {
    forall k :: 0 <= k < |os| && k != i && k != j ==> os[k].None?
  }

  /** Exactly two entries of `os` are `Some`: `Some(a)` and, after it, `Some(b)`. */
  ghost predicate ExactlyTwoSome(os: seq<Option<nat>>, a: nat, b: nat) {
    exists i, j :: 0 <= i < j < |os| && os[i] == Some(a) && os[j] == Some(b) && NoneElsewhere(os, i, j)
  }

  /** Dropping a leading `None` shifts every position down by one. */
  lemma NoneElsewhereTail(os: seq<Option<nat>>, i: int, j: int)
    requires os != [] && os[0].None?
    ensures NoneElsewhere(os, i, j) <==> NoneElsewhere(os[1..], i - 1, j - 1)
  {
    var tl := os[1..];
    if NoneElsewhere(tl, i - 1, j - 1) {
      forall k | 0 < k < |os| && k != i && k != j ensures os[k].None? {
        assert os[k] == tl[k - 1];
      }
    }
    if NoneElsewhere(os, i, j) {
      forall k | 0 <= k < |tl| && k != i - 1 && k != j - 1 ensures tl[k].None? {
        assert tl[k] == os[k + 1];
      }
    }
  }

  /** With `Some` at the head, only the head may be a `Some`: the tail is `None` everywhere but `j - 1`. */
  lemma NoneElsewhereTailAfterSome(os: seq<Option<nat>>, j: int)
    requires os != [] && os[0].Some?
    ensures NoneElsewhere(os, 0, j) <==> NoneElsewhere(os[1..], j - 1, j - 1)
  {
    var tl := os[1..];
    if NoneElsewhere(tl, j - 1, j - 1) {
      forall k | 0 < k < |os| && k != j ensures os[k].None? {
        assert os[k] == tl[k - 1];
      }
    }
    if NoneElsewhere(os, 0, j) {
      forall k | 0 <= k < |tl| && k != j - 1 ensures tl[k].None? {
        assert tl[k] == os[k + 1];
      }
    }
  }

  lemma {:induction false} NoSome(os: seq<Option<nat>>)
    ensures Somes(os) == [] <==> NoneElsewhere(os, -1, -1)
  {
    if os != [] {
      NoSome(os[1..]);
      if os[0].None? {
        NoneElsewhereTail(os, -1, -1);
        // positions -2 and -1 name no entry
        assert NoneElsewhere(os[1..], -2, -2) <==> NoneElsewhere(os[1..], -1, -1);
      }
    }
  }

  ghost predicate ExactlyOneSome(os: seq<Option<nat>>, b: nat) {
    exists j :: 0 <= j < |os| && os[j] == Some(b) && NoneElsewhere(os, j, j)
  }

  lemma {:induction false} OneSome(os: seq<Option<nat>>, b: nat)
    ensures Somes(os) == [b] <==> ExactlyOneSome(os, b)
  {
    if os != [] {
      if os[0].None? {
        OneSome(os[1..], b);
        OneSomeAfterNone(os, b);
      } else {
        NoSome(os[1..]);
        OneSomeAfterSome(os, b);
      }
    }
  }

  lemma OneSomeAfterNone(os: seq<Option<nat>>, b: nat)
    requires os != [] && os[0].None?
    requires Somes(os[1..]) == [b] <==> ExactlyOneSome(os[1..], b)
    ensures Somes(os) == [b] <==> ExactlyOneSome(os, b)
  {
    var tl := os[1..];
    assert Somes(os) == Somes(tl);
    if ExactlyOneSome(tl, b) {
      var j :| 0 <= j < |tl| && tl[j] == Some(b) && NoneElsewhere(tl, j, j);
      NoneElsewhereTail(os, j + 1, j + 1);
      assert os[j + 1] == tl[j];
    }
    if ExactlyOneSome(os, b) {
      var j :| 0 <= j < |os| && os[j] == Some(b) && NoneElsewhere(os, j, j);
      NoneElsewhereTail(os, j, j);
      assert tl[j - 1] == os[j];
    }
  }

  lemma OneSomeAfterSome(os: seq<Option<nat>>, b: nat)
    requires os != [] && os[0].Some?
    requires Somes(os[1..]) == [] <==> NoneElsewhere(os[1..], -1, -1)
    ensures Somes(os) == [b] <==> ExactlyOneSome(os, b)
  {
    var tl := os[1..];
    assert Somes(os) == [os[0].value] + Somes(tl);
    NoneElsewhereTailAfterSome(os, 0);
    assert NoneElsewhere(tl, -1, -1) <==> NoneElsewhere(tl, 0 - 1, 0 - 1);
    if ExactlyOneSome(os, b) {
      var j :| 0 <= j < |os| && os[j] == Some(b) && NoneElsewhere(os, j, j);
      assert j == 0;
    }
    if Somes(os) == [b] {
      assert Somes(os)[1..] == Somes(tl) == [];
      assert os[0] == Some(b) && NoneElsewhere(os, 0, 0);
    }
  }

  /** Filtering leaves exactly `[a, b]` iff exactly two entries are `Some`, `Some(a)` before `Some(b)`. */
  lemma {:induction false} TwoSome(os: seq<Option<nat>>, a: nat, b: nat)
    ensures Somes(os) == [a, b] <==> ExactlyTwoSome(os, a, b)
  {
    if os != [] {
      if os[0].None? {
        TwoSome(os[1..], a, b);
        TwoSomeAfterNone(os, a, b);
      } else {
        OneSome(os[1..], b);
        TwoSomeAfterSome(os, a, b);
      }
    }
  }

  lemma TwoSomeAfterNone(os: seq<Option<nat>>, a: nat, b: nat)
    requires os != [] && os[0].None?
    requires Somes(os[1..]) == [a, b] <==> ExactlyTwoSome(os[1..], a, b)
    ensures Somes(os) == [a, b] <==> ExactlyTwoSome(os, a, b)
  {
    assert Somes(os) == Somes(os[1..]);
    TwoSomeShiftUp(os, a, b);
    TwoSomeShiftDown(os, a, b);
  }

  lemma TwoSomeShiftUp(os: seq<Option<nat>>, a: nat, b: nat)
    requires os != [] && os[0].None?
    ensures ExactlyTwoSome(os[1..], a, b) ==> ExactlyTwoSome(os, a, b)
  {
    var tl := os[1..];
    if ExactlyTwoSome(tl, a, b) {
      var i, j :| 0 <= i < j < |tl| && tl[i] == Some(a) && tl[j] == Some(b) && NoneElsewhere(tl, i, j);
      NoneElsewhereTail(os, i + 1, j + 1);
      assert os[i + 1] == tl[i] && os[j + 1] == tl[j];
    }
  }

  lemma TwoSomeShiftDown(os: seq<Option<nat>>, a: nat, b: nat)
    requires os != [] && os[0].None?
    ensures ExactlyTwoSome(os, a, b) ==> ExactlyTwoSome(os[1..], a, b)
  {
    var tl := os[1..];
    if ExactlyTwoSome(os, a, b) {
      var i, j :| 0 <= i < j < |os| && os[i] == Some(a) && os[j] == Some(b) && NoneElsewhere(os, i, j);
      NoneElsewhereTail(os, i, j);
      assert tl[i - 1] == os[i] && tl[j - 1] == os[j];
    }
  }

  lemma TwoSomeAfterSome(os: seq<Option<nat>>, a: nat, b: nat)
    requires os != [] && os[0].Some?
    requires Somes(os[1..]) == [b] <==> ExactlyOneSome(os[1..], b)
    ensures Somes(os) == [a, b] <==> ExactlyTwoSome(os, a, b)
  {
    var tl := os[1..];
    assert Somes(os) == [os[0].value] + Somes(tl);
    if Somes(os) == [a, b] {
      var w := [os[0].value] + Somes(tl);
      assert w[0] == os[0].value && w[1..] == Somes(tl);
      assert os[0] == Some(a) && Somes(tl) == [b];
      var j :| 0 <= j < |tl| && tl[j] == Some(b) && NoneElsewhere(tl, j, j);
      NoneElsewhereTailAfterSome(os, j + 1);
      assert os[j + 1] == tl[j];
    }
    if ExactlyTwoSome(os, a, b) {
      var i, j :| 0 <= i < j < |os| && os[i] == Some(a) && os[j] == Some(b) && NoneElsewhere(os, i, j);
      assert i == 0;
      NoneElsewhereTailAfterSome(os, j);
      assert tl[j - 1] == os[j];
    }
  }

  /** `(from.min(to), from.max(to))`: the canonical form of the unordered pair {a, b}. */
  function Normalize(a: nat, b: nat): (e: (nat, nat))
    ensures e.0 <= e.1 && {e.0, e.1} == {a, b}
  {
    if a <= b then (a, b) else (b, a)
  }

  /** The edge one input line contributes, if any (main.rs lines 25-37). */
  function LineEdge(line: string): (e: Option<(nat, nat)>)
    ensures e.Some? ==> e.value.0 < e.value.1
  {
    if IsComment(line) || IsBlank(line) then None
    else
      var vs := ParsedValues(Tokens(line));
      if |vs| == 2 && vs[0] != vs[1] then Some(Normalize(vs[0], vs[1])) else None
  }

  /**
   * A line contributes edge `e` exactly when it is not a comment, not blank,
   * exactly two of its tokens parse, to distinct values, and `e` is their
   * canonical pair; every other token is ignored.
   */
  lemma LineEdgeSpec(line: string, e: (nat, nat))
    ensures LineEdge(line) == Some(e) <==>
            !IsComment(line) && !IsBlank(line) &&
            exists a: nat, b: nat :: a != b && ExactlyTwoSome(Parses(Tokens(line)), a, b) && e == Normalize(a, b)
  {
    var vs := ParsedValues(Tokens(line));
    if LineEdge(line) == Some(e) {
      TwoSome(Parses(Tokens(line)), vs[0], vs[1]);
      assert vs == [vs[0], vs[1]];
    }
    if !IsComment(line) && !IsBlank(line) &&
       exists a: nat, b: nat :: a != b && ExactlyTwoSome(Parses(Tokens(line)), a, b) && e == Normalize(a, b) {
      var a: nat, b: nat :| a != b && ExactlyTwoSome(Parses(Tokens(line)), a, b) && e == Normalize(a, b);
      TwoSome(Parses(Tokens(line)), a, b);
    }
  }

  /** The line "u v" (decimal, one space) yields the canonical edge of {u, v}. */
  function EdgeLine(u: nat, v: nat): string {
    Decimal(u) + " " + Decimal(v)
  }

  lemma {:induction false} EdgeLineRoundTrip(u: nat, v: nat)
    requires u <= UsizeMax && v <= UsizeMax && u != v
    ensures LineEdge(EdgeLine(u, v)) == Some(Normalize(u, v))
  {
    var du, dv := Decimal(u), Decimal(v);
    DigitsHaveNoWhitespace(du);
    DigitsHaveNoWhitespace(dv);
    TokensOfJoin([du, dv]);
    assert JoinSpaced([du, dv]) == EdgeLine(u, v) by {
      assert JoinSpaced([du, dv][1..]) == dv;
    }
    ParseDecimal(u);
    ParseDecimal(v);
    var os := Parses([du, dv]);
    assert os == [Some(u), Some(v)];
    assert Somes(os) == [u] + Somes(os[1..]);
    assert Somes(os[1..]) == [v] + Somes(os[2..]);
    assert os[2..] == [];
    var line := EdgeLine(u, v);
    assert line[0] == du[0];
    assert !IsBlank(line) by {
      assert !IsWhitespace(line[0]);
    }
  }

  /** A line of space-separated tokens: the tokens come back, and the line is not blank. */
  lemma {:induction false} JoinedLine(ts: seq<string>)
    requires |ts| >= 1 && forall i :: 0 <= i < |ts| ==> ts[i] != [] && NoWhitespace(ts[i])
    ensures Tokens(JoinSpaced(ts)) == ts
    ensures JoinSpaced(ts) != [] && JoinSpaced(ts)[0] == ts[0][0] && !IsBlank(JoinSpaced(ts))
  {
    TokensOfJoin(ts);
    var line := JoinSpaced(ts);
    if |ts| > 1 {
      assert line == ts[0] + (" " + JoinSpaced(ts[1..]));
    }
    assert line[0] == ts[0][0];
    assert !IsWhitespace(line[0]);
  }

  /** A line of tokens that is not a comment yields the edge of its parsed values alone. */
  lemma LineOfTokens(ts: seq<string>)
    requires |ts| >= 1 && forall i :: 0 <= i < |ts| ==> ts[i] != [] && NoWhitespace(ts[i])
    requires ts[0][0] != '#'
    ensures LineEdge(JoinSpaced(ts)) ==
            (var vs := ParsedValues(ts);
             if |vs| == 2 && vs[0] != vs[1] then Some(Normalize(vs[0], vs[1])) else None)
  {
    JoinedLine(ts);
  }

  /** A token that is not a number, between two numbers, is ignored: "1 x 2" is the edge (1, 2). */
  lemma ExtraWordIgnored(u: nat, w: string, v: nat)
    requires u <= UsizeMax && v <= UsizeMax && u != v
    requires w != [] && NoWhitespace(w) && ParseUsize(w) == None
    ensures LineEdge(JoinSpaced([Decimal(u), w, Decimal(v)])) == Some(Normalize(u, v))
  {
    var ts := [Decimal(u), w, Decimal(v)];
    DigitsHaveNoWhitespace(ts[0]);
    DigitsHaveNoWhitespace(ts[2]);
    LineOfTokens(ts);
    ParseDecimal(u);
    ParseDecimal(v);
    var os := Parses(ts);
    assert os == [Some(u), None, Some(v)];
    assert Somes(os) == [u] + Somes(os[1..]);
    assert Somes(os[1..]) == Somes(os[2..]);
    assert Somes(os[2..]) == [v] + Somes(os[3..]);
    assert os[3..] == [];
  }

  /** A comment line contributes nothing, whatever follows the `#`. */
  lemma CommentSkipped(rest: string)
    ensures LineEdge("#" + rest) == None
  {
    assert IsComment("#" + rest);
  }

  /** The decimal rendering of every number, in order. */
  function Decimals(ns: seq<nat>): (ts: seq<string>)
    ensures |ts| == |ns| && forall i :: 0 <= i < |ns| ==> ts[i] == Decimal(ns[i])
  {
    seq(|ns|, i requires 0 <= i < |ns| => Decimal(ns[i]))
  }

  predicate InUsize(ns: seq<nat>) {
    forall i :: 0 <= i < |ns| ==> ns[i] <= UsizeMax
  }

  /** Every rendered number parses back, so filtering keeps them all. */
  lemma {:induction false} NumbersParse(ns: seq<nat>)
    requires InUsize(ns)
    ensures ParsedValues(Decimals(ns)) == ns
  {
    if ns != [] {
      var os := Parses(Decimals(ns));
      NumbersParse(ns[1..]);
      assert os[1..] == Parses(Decimals(ns[1..]));
      ParseDecimal(ns[0]);
    }
  }

  /**
   * A line of numbers: an edge exactly when there are two of them and they
   * differ. "u u" is a self-loop and "u v w" has too many values; both are skipped.
   */
  lemma NumberLine(ns: seq<nat>)
    requires ns != [] && InUsize(ns)
    ensures LineEdge(JoinSpaced(Decimals(ns))) ==
            if |ns| == 2 && ns[0] != ns[1] then Some(Normalize(ns[0], ns[1])) else None
  {
    var ts := Decimals(ns);
    forall i | 0 <= i < |ts| ensures ts[i] != [] && NoWhitespace(ts[i]) {
      DigitsHaveNoWhitespace(ts[i]);
    }
    assert IsDigit(ts[0][0]);
    LineOfTokens(ts);
    NumbersParse(ns);
  }

  /** A negative id does not parse as `usize`, so "-u v" leaves one number and is skipped. */
  lemma NegativeSkipped(u: nat, v: nat)
    requires v <= UsizeMax
    ensures LineEdge(JoinSpaced(["-" + Decimal(u), Decimal(v)])) == None
  {
    var ts := ["-" + Decimal(u), Decimal(v)];
    NegativeTokens(u, v, ts);
    LineOfTokens(ts);
    NegativeValues(u, v, ts);
  }

  lemma NegativeTokens(u: nat, v: nat, ts: seq<string>)
    requires ts == ["-" + Decimal(u), Decimal(v)]
    ensures forall i :: 0 <= i < |ts| ==> ts[i] != [] && NoWhitespace(ts[i])
    ensures ts[0][0] != '#'
  {
    DigitsHaveNoWhitespace(Decimal(u));
    assert NoWhitespace(ts[0]) by {
      assert forall i :: 1 <= i < |ts[0]| ==> ts[0][i] == Decimal(u)[i - 1];
    }
    DigitsHaveNoWhitespace(ts[1]);
  }

  lemma NegativeValues(u: nat, v: nat, ts: seq<string>)
    requires v <= UsizeMax && ts == ["-" + Decimal(u), Decimal(v)]
    ensures ParsedValues(ts) == [v]
  {
    ParseDecimal(v);
    var os := Parses(ts);
    assert os == [None, Some(v)];
    assert Somes(os) == Somes(os[1..]);
    assert Somes(os[1..]) == [v] + Somes(os[2..]);
    assert os[2..] == [];
  }

  /** A digit, a tab and another digit yield the canonical pair of the two digit values. */
  lemma TabSeparated(c: char, d: char)
    requires IsDigit(c) && IsDigit(d) && c != d
    ensures LineEdge([c, '\t', d]) == Some(Normalize(c as int - '0' as int, d as int - '0' as int))
  {
    var u, v := c as int - '0' as int, d as int - '0' as int;
    var dc, dd := [c], [d];
    var line := [c, '\t', d];
    assert Tokens(line) == [dc, dd] by {
      assert WordLength(line) == 1;
      assert line[..1] == dc;
      assert line[1..] == ['\t', d];
      assert line[1..][1..] == dd;
      assert WordLength(dd) == 1;
      assert dd[..1] == dd && dd[1..] == [];
      assert Tokens(dd) == [dd];
      assert Tokens(line[1..]) == Tokens(dd);
    }
    assert dc[..0] == [] && dd[..0] == [];
    assert DigitsValue(dc) == u;
    assert DigitsValue(dd) == v;
    assert ParseUsize(dc) == Some(u);
    assert ParseUsize(dd) == Some(v);
    var os := Parses([dc, dd]);
    assert os == [Some(u), Some(v)];
    assert Somes(os) == [u] + Somes(os[1..]);
    assert Somes(os[1..]) == [v] + Somes(os[2..]);
    assert os[2..] == [];
    assert !IsComment(line) && !IsBlank(line);
  }
}
