/**
 The string operations the indexer relies on, written out with the meaning
 they have in Python 3: `str.isspace`, `str.strip()`, `str.find`,
 `str.split(sep)`, `sep.join(xs)`, `str.endswith` and the decimal rendering
 of a non-negative integer used by f-strings.
 */
module Text {

  /** The paragraph separator: documents are split on it and retrieved passages are joined with it. */
  const Sep: string := "\n\n"

  /** Python's `str.isspace` on a single character (the characters of Unicode category Zs or of bidirectional class WS, B or S). */
  predicate IsSpace(c: char) {
    || ('\t' <= c <= '\r')
    || ('\U{001C}' <= c <= ' ')
    || c == '\U{0085}' || c == '\U{00A0}' || c == '\U{1680}'
    || ('\U{2000}' <= c <= '\U{200A}')
    || c == '\U{2028}' || c == '\U{2029}' || c == '\U{202F}' || c == '\U{205F}'
    || c == '\U{3000}'
  }

  /** Every character of `s` is whitespace (this includes the empty string). */
  predicate Blank(s: string) {
    forall k :: 0 <= k < |s| ==> IsSpace(s[k])
  }

  /** `s.endswith(suffix)` */
  predicate EndsWith(s: string, suffix: string) {
    |suffix| <= |s| && s[|s| - |suffix|..] == suffix
  }

  /** `sep` occurs in `s` starting at position `i`. */
  predicate ContainsAt(s: string, sep: string, i: nat) {
    i + |sep| <= |s| && s[i..i + |sep|] == sep
  }

  /** `sep in s` */
  predicate Contains(s: string, sep: string) {
    exists i: nat | i <= |s| :: ContainsAt(s, sep, i)
  }

  /** Leading whitespace removed (`s.lstrip()`). */
  function StripStart(s: string): string
    decreases |s|
  {
    if s != [] && IsSpace(s[0]) then StripStart(s[1..]) else s
  }

  /** Trailing whitespace removed (`s.rstrip()`). */
  function StripEnd(s: string): string
    decreases |s|
  {
    if s != [] && IsSpace(s[|s| - 1]) then StripEnd(s[..|s| - 1]) else s
  }

  /** `lstrip` leaves a suffix of `s`, everything it cut off was whitespace and what is left
      does not start with whitespace. */
  lemma {:induction false} StripStartSpec(s: string)
    ensures var r := StripStart(s);
      && |r| <= |s| && r == s[|s| - |r|..]
      && (forall k :: 0 <= k < |s| - |r| ==> IsSpace(s[k]))
      && (r != [] ==> !IsSpace(r[0]))
    decreases |s|
  {
    if s != [] && IsSpace(s[0]) {
      StripStartSpec(s[1..]);
    }
  }

  /** `rstrip` leaves a prefix of `s`, everything it cut off was whitespace and what is left
      does not end with whitespace. */
  lemma {:induction false} StripEndSpec(s: string)
    ensures var r := StripEnd(s);
      && |r| <= |s| && r == s[..|r|]
      && (forall k :: |r| <= k < |s| ==> IsSpace(s[k]))
      && (r != [] ==> !IsSpace(r[|r| - 1]))
    decreases |s|
  {
    if s != [] && IsSpace(s[|s| - 1]) {
      StripEndSpec(s[..|s| - 1]);
    }
  }

  /** `s.strip()` with no argument. */
  function Strip(s: string): string {
    StripEnd(StripStart(s))
  }

  /** The result of `strip` neither starts nor ends with whitespace. */
  lemma StripTrimmed(s: string)
    ensures Strip(s) != [] ==> !IsSpace(Strip(s)[0]) && !IsSpace(Strip(s)[|Strip(s)| - 1])
  {
    var t := StripStart(s);
    var r := StripEnd(t);
    StripStartSpec(s);
    StripEndSpec(t);
    if r != [] {
      assert r[0] == t[0];
    }
  }

  /** `strip` gives the empty string exactly on blank input. */
  lemma StripEmptyIffBlank(s: string)
    ensures Strip(s) == [] <==> Blank(s)
  {
    var t := StripStart(s);
    StripStartSpec(s);
    StripEndSpec(t);
    if Strip(s) == [] {
      assert t == [];
    }
  }

  /** Stripping twice is stripping once. */
  lemma StripIdempotent(s: string)
    ensures Strip(Strip(s)) == Strip(s)
  {
    var r := Strip(s);
    StripTrimmed(s);
    assert StripStart(r) == r;
  }

  /** An occurrence inside a slice is an occurrence in the whole string. */
  lemma ContainsInSlice(s: string, a: nat, b: nat, sep: string, i: nat)
    requires a <= b <= |s|
    ensures ContainsAt(s[a..b], sep, i) ==> ContainsAt(s, sep, a + i)
  {
    if ContainsAt(s[a..b], sep, i) {
      forall k | 0 <= k < |sep| ensures s[a + i..a + i + |sep|][k] == sep[k] {
        assert s[a..b][i..i + |sep|][k] == sep[k];
      }
    }
  }

  /** Whatever does not contain `sep` has no slice that contains it. */
  lemma SliceKeepsOut(s: string, a: nat, b: nat, sep: string)
    requires a <= b <= |s|
    requires !Contains(s, sep)
    ensures !Contains(s[a..b], sep)
  {
    forall i: nat | i <= b - a ensures !ContainsAt(s[a..b], sep, i) {
      ContainsInSlice(s, a, b, sep, i);
    }
  }

  /** Stripping cannot create an occurrence of a separator. */
  lemma StripKeepsOut(s: string, sep: string)
    requires !Contains(s, sep)
    ensures !Contains(Strip(s), sep)
  {
    var t := StripStart(s);
    StripStartSpec(s);
    StripEndSpec(t);
    SliceKeepsOut(s, |s| - |t|, |s|, sep);
    assert s[|s| - |t|..|s|] == t;
    SliceKeepsOut(t, 0, |StripEnd(t)|, sep);
  }

  /** The two-character paragraph separator occurs at `i` exactly when two newlines stand there. */
  lemma SepAt(s: string, i: nat)
    ensures ContainsAt(s, Sep, i) <==> i + 1 < |s| && s[i] == '\n' && s[i + 1] == '\n'
  {
    if i + 1 < |s| {
      assert s[i..i + 2] == [s[i], s[i + 1]];
    }
  }

  /** A string without newlines contains no blank-line separator. */
  lemma NoNewlineNoSep(s: string)
    requires forall k :: 0 <= k < |s| ==> s[k] != '\n'
    ensures !Contains(s, Sep)
  {
    forall i: nat | i <= |s| ensures !ContainsAt(s, Sep, i) {
      SepAt(s, i);
    }
  }

  /** `s.find(sep, i)`, except that "not found" is `|s|` rather than `-1`:
      the first position at or after `i` where `sep` occurs. */
  function FindFrom(s: string, sep: string, i: nat): (r: nat)
    requires sep != [] && i <= |s|
    ensures i <= r <= |s|
    ensures r < |s| ==> ContainsAt(s, sep, r)
    ensures forall j: nat :: i <= j < r ==> !ContainsAt(s, sep, j)
    ensures r == |s| ==> forall j: nat :: i <= j ==> !ContainsAt(s, sep, j)
    decreases |s| - i
  {
    if i + |sep| > |s| then |s|
    else if s[i..i + |sep|] == sep then i
    else FindFrom(s, sep, i + 1)
  }

  /** `s.split(sep)`: the pieces between the non-overlapping occurrences of `sep`,
      found from left to right; there is always at least one piece. */
  function Split(s: string, sep: string): (pieces: seq<string>)
    requires sep != []
    ensures |pieces| >= 1
    decreases |s|
  {
    var k := FindFrom(s, sep, 0);
    if k == |s| then [s] else [s[..k]] + Split(s[k + |sep|..], sep)
  }

  /** `sep.join(xs)` */
  function Join(xs: seq<string>, sep: string): string
    decreases |xs|
  {
    if |xs| == 0 then ""
    else if |xs| == 1 then xs[0]
    else xs[0] + sep + Join(xs[1..], sep)
  }

  /** A string is its prefix, middle and suffix put back together. */
  lemma Reassemble(s: string, i: nat, j: nat)
    requires i <= j <= |s|
    ensures s == s[..i] + s[i..j] + s[j..]
  {
  }

  /** Joining a list that starts with `a` puts `a` and the separator in front of the rest. */
  lemma JoinCons(a: string, xs: seq<string>, sep: string)
    requires xs != []
    ensures Join([a] + xs, sep) == a + sep + Join(xs, sep)
  {
    assert ([a] + xs)[1..] == xs;
  }

  /** Where the separator is found, the split is the text before it followed by the split of the rest. */
  lemma SplitFound(s: string, sep: string)
    requires sep != []
    requires FindFrom(s, sep, 0) < |s|
    ensures var k := FindFrom(s, sep, 0);
      Split(s, sep) == [s[..k]] + Split(s[k + |sep|..], sep)
  {
  }

  /** Joining the pieces of a split gives back the string. */
  lemma {:induction false} SplitJoin(s: string, sep: string)
    requires sep != []
    ensures Join(Split(s, sep), sep) == s
    decreases |s|
  {
    var k := FindFrom(s, sep, 0);
    if k < |s| {
      var rest := s[k + |sep|..];
      SplitJoin(rest, sep);
      SplitFound(s, sep);
      JoinCons(s[..k], Split(rest, sep), sep);
      assert s[k..k + |sep|] == sep;
      Reassemble(s, k, k + |sep|);
    }
  }

  /** No piece of a split contains the separator. */
  lemma {:induction false} SplitPiecesFree(s: string, sep: string)
    requires sep != []
    ensures forall p :: p in Split(s, sep) ==> !Contains(p, sep)
    decreases |s|
  {
    var k := FindFrom(s, sep, 0);
    if k < |s| {
      SplitPiecesFree(s[k + |sep|..], sep);
      forall i: nat | i <= k ensures !ContainsAt(s[..k], sep, i) {
        ContainsInSlice(s, 0, k, sep, i);
      }
    } else {
      assert forall i: nat :: !ContainsAt(s, sep, i);
    }
  }

  /** A passage that can be joined with `Sep` and split back unchanged:
      it does not contain the separator and does not end in a newline
      (which would run together with the separator that follows it). */
  predicate Separable(x: string) {
    !Contains(x, Sep) && (x == [] || x[|x| - 1] != '\n')
  }

  /** Splitting a `Sep`-join of separable passages gives the passages back. */
  lemma {:induction false} JoinSplit(xs: seq<string>)
    requires xs != []
    requires forall x :: x in xs ==> Separable(x)
    ensures Split(Join(xs, Sep), Sep) == xs
    decreases |xs|
  {
    var x := xs[0];
    var s := Join(xs, Sep);
    var r := FindFrom(s, Sep, 0);
    assert Separable(x);
    if |xs| == 1 {
      assert s == x;
      assert r <= |s| && !ContainsAt(s, Sep, r);
    } else {
      var rest := xs[1..];
      assert s == x + Sep + Join(rest, Sep);
      SepAt(s, |x|);
      forall j: nat | j < |x| ensures !ContainsAt(s, Sep, j) {
        SepAt(s, j);
        SepAt(x, j);
        assert s[j] == x[j];
        if j + 1 < |x| {
          assert s[j + 1] == x[j + 1];
        }
      }
      assert r == |x|;
      assert s[..|x|] == x;
      assert s[|x| + 2..] == Join(rest, Sep);
      JoinSplit(rest);
    }
  }

  /** A concatenation is blank exactly when both parts are. */
  lemma BlankConcat(a: string, b: string)
    ensures Blank(a + b) <==> Blank(a) && Blank(b)
  {
    if Blank(a + b) {
      assert forall k :: 0 <= k < |a| ==> (a + b)[k] == a[k];
      assert forall k :: 0 <= k < |b| ==> (a + b)[|a| + k] == b[k];
    }
  }

  /** A join of pieces with the blank separator is blank exactly when every piece is. */
  lemma {:induction false} JoinBlank(xs: seq<string>)
    ensures Blank(Join(xs, Sep)) <==> forall x :: x in xs ==> Blank(x)
    decreases |xs|
  {
    if |xs| == 1 {
      assert forall x :: x in xs ==> x == xs[0];
    } else if |xs| > 1 {
      var a, rest := xs[0], xs[1..];
      JoinBlank(rest);
      assert Join(xs, Sep) == (a + Sep) + Join(rest, Sep);
      BlankConcat(a + Sep, Join(rest, Sep));
      BlankConcat(a, Sep);
      assert Blank(Sep);
      assert forall x :: x in xs <==> x == a || x in rest;
    }
  }

  /** The character for a decimal digit. */
  function DigitChar(d: nat): char
    requires d < 10
  {
    "0123456789"[d]
  }

  /** The value of a decimal digit character, or 10 for any other character. */
  function DigitValue(c: char): nat {
    if '0' <= c <= '9' then (c as int - '0' as int) as nat else 10
  }

  /** `str(n)` / `f"{n}"` for a non-negative integer: its decimal digits, most significant first. */
  function NatToString(n: nat): (s: string)
    ensures s != []
    ensures forall k :: 0 <= k < |s| ==> DigitValue(s[k]) < 10
    ensures |s| > 1 ==> s[0] != '0'
    decreases n
  {
    if n < 10 then [DigitChar(n)] else NatToString(n / 10) + [DigitChar(n % 10)]
  }

  /** The number a string of decimal digits denotes (`int(s)` on such strings). */
  function ParseNat(s: string): nat
    decreases |s|
  {
    if s == [] then 0
    else 10 * ParseNat(s[..|s| - 1]) + (if DigitValue(s[|s| - 1]) < 10 then DigitValue(s[|s| - 1]) else 0)
  }

  /** The decimal rendering reads back as the same number. */
  lemma {:induction false} ParseNatToString(n: nat)
    ensures ParseNat(NatToString(n)) == n
    decreases n
  {
    if n >= 10 {
      ParseNatToString(n / 10);
      var s := NatToString(n);
      assert s[..|s| - 1] == NatToString(n / 10);
    }
  }

  /** Different numbers render differently. */
  lemma NatToStringInjective(m: nat, n: nat)
    requires NatToString(m) == NatToString(n)
    ensures m == n
  {
    ParseNatToString(m);
    ParseNatToString(n);
  }
}
