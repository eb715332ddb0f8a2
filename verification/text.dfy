/**
 * Character classes and the handful of Python `str` operations the scraper relies on:
 * `find`, `rfind`, `split(sep)[k]`, `strip`, `lower`, `isdigit` and `{n:03d}` formatting.
 */
module Text {
  import opened Wrappers

  // ---------------------------------------------------------------- character classes

  /** The characters for which Python's `str.isspace()` holds. */
  predicate IsSpace(c: char) {
    c == ' ' || ('\t' <= c <= '\r') || ('\U{1c}' <= c <= '\U{1f}') || c == '\U{85}' || c == '\U{a0}'
    || c == '\U{1680}' || ('\U{2000}' <= c <= '\U{200a}') || c == '\U{2028}' || c == '\U{2029}'
    || c == '\U{202f}' || c == '\U{205f}' || c == '\U{3000}'
  }

  predicate IsDigit(c: char) { '0' <= c <= '9' }

  predicate IsLower(c: char) { 'a' <= c <= 'z' }

  predicate IsUpper(c: char) { 'A' <= c <= 'Z' }

  predicate IsAsciiAlpha(c: char) { IsLower(c) || IsUpper(c) }

  /** The regex character class `[a-z0-9-]`. */
  predicate IsLowerSlugChar(c: char) { IsLower(c) || IsDigit(c) || c == '-' }

  /** The regex character class `[a-zA-Z0-9-]`. */
  predicate IsSlugChar(c: char) { IsAsciiAlpha(c) || IsDigit(c) || c == '-' }

  /** ASCII lower-casing, as `str.lower()` acts on URL schemes. */
  function Lower(s: string): (r: string)
    ensures |r| == |s|
    ensures forall i :: 0 <= i < |s| ==> r[i] == (if IsUpper(s[i]) then s[i] - 'A' + 'a' else s[i])
  {
    if s == [] then [] else [if IsUpper(s[0]) then s[0] - 'A' + 'a' else s[0]] + Lower(s[1..])
  }

  // ---------------------------------------------------------------- searching

  /** Index of the first character of `s` that lies in `cs`, or `|s|` when there is none. */
  function FindIn(s: string, cs: set<char>): (r: nat)
    ensures r <= |s|
    ensures r < |s| ==> s[r] in cs
    ensures forall i :: 0 <= i < r ==> s[i] !in cs
  {
    if s == [] then 0 else if s[0] in cs then 0 else 1 + FindIn(s[1..], cs)
  }

  /** Python's `s.rfind(c)`: the last index holding `c`, or -1. */
  function LastIndexOf(s: string, c: char): (r: int)
    ensures -1 <= r < |s|
    ensures r >= 0 ==> s[r] == c
    ensures forall i :: r < i < |s| ==> s[i] != c
  {
    if s == [] then -1 else if s[|s| - 1] == c then |s| - 1 else LastIndexOf(s[..|s| - 1], c)
  }

  /** `sub` occurs in `s` starting at index `i`. */
  predicate OccursAt(s: string, sub: string, i: nat) {
    i + |sub| <= |s| && s[i..i + |sub|] == sub
  }

  /** Python's `s.find(sub)`, with `None` for -1. */
  function Find(s: string, sub: string): (r: Option<nat>)
    ensures r.Some? ==> OccursAt(s, sub, r.value) && forall j :: 0 <= j < r.value ==> !OccursAt(s, sub, j)
    ensures r.None? ==> forall j :: 0 <= j ==> !OccursAt(s, sub, j)
    decreases |s|
  {
    if sub <= s then Some(0)
    else if s == [] then None
    else
      match Find(s[1..], sub)
      case None =>
        assert forall j :: 1 <= j ==> (OccursAt(s, sub, j) <==> OccursAt(s[1..], sub, j - 1));
        None
      case Some(k) =>
        assert forall j :: 1 <= j ==> (OccursAt(s, sub, j) <==> OccursAt(s[1..], sub, j - 1));
        Some(k + 1)
  }

  /** `Find` reports the first occurrence. */
  lemma FindFirst(s: string, sub: string, i: nat)
    requires OccursAt(s, sub, i)
    requires forall j :: 0 <= j < i ==> !OccursAt(s, sub, j)
    ensures Find(s, sub) == Some(i)
  {
  }

  /** Python's `sub in s`. */
  predicate Contains(s: string, sub: string) { Find(s, sub).Some? }

  /** Python's `s.split(sep)[0]`: the text before the first `sep`, or all of `s`. */
  function Before(s: string, sep: string): (r: string)
    ensures r <= s
    ensures Contains(s, sep) ==> |r| + |sep| <= |s| && s[|r|..|r| + |sep|] == sep
    ensures !Contains(s, sep) ==> r == s
  {
    match Find(s, sep)
    case Some(i) => s[..i]
    case None => s
  }

  /** The text after the first `sep` of `s`; `s.split(sep)[1]` is `Before(After(s, sep), sep)`. */
  function After(s: string, sep: string): (r: string)
    requires Contains(s, sep)
    ensures |r| + |Before(s, sep)| + |sep| == |s|
    ensures s == Before(s, sep) + sep + r
  {
    var i := Find(s, sep).value;
    assert OccursAt(s, sep, i);
    var r := s[i + |sep|..];
    assert Before(s, sep) == s[..i];
    assert s == s[..i] + sep + r by {
      assert s[i..i + |sep|] == sep;
      assert s == s[..i] + s[i..i + |sep|] + r;
    }
    r
  }

  // ---------------------------------------------------------------- stripping

  /** Python's `s.strip(chars)` where `drop` says which characters are in `chars`. */
  function StripWhere(s: string, drop: char -> bool): (r: string)
    ensures |r| <= |s|
    ensures var i := LeadingCount(s, drop);
      i + |r| <= |s| && r == s[i..i + |r|] && forall k :: i + |r| <= k < |s| ==> drop(s[k])
    ensures r != [] ==> !drop(r[0]) && !drop(r[|r| - 1])
  {
    var i := LeadingCount(s, drop);
    var j := i + TrailingCount(s[i..], drop);
    var r := s[i..|s| - (j - i)];
    assert r == s[i..i + |r|];
    r
  }

  /** Number of leading characters of `s` satisfying `drop`. */
  function LeadingCount(s: string, drop: char -> bool): (n: nat)
    ensures n <= |s|
    ensures forall k :: 0 <= k < n ==> drop(s[k])
    ensures n < |s| ==> !drop(s[n])
  {
    if s == [] || !drop(s[0]) then 0 else 1 + LeadingCount(s[1..], drop)
  }

  /** Number of trailing characters of `s` satisfying `drop`, never reaching a kept first character. */
  function TrailingCount(s: string, drop: char -> bool): (n: nat)
    ensures n <= |s|
    ensures forall k :: |s| - n <= k < |s| ==> drop(s[k])
    ensures n < |s| ==> !drop(s[|s| - 1 - n])
    ensures s != [] && !drop(s[0]) ==> n < |s|
  {
    if s == [] || !drop(s[|s| - 1]) then 0 else 1 + TrailingCount(s[..|s| - 1], drop)
  }

  /** Python's `s.strip()`: drop leading and trailing whitespace. */
  function Strip(s: string): (r: string)
    ensures |r| <= |s|
    ensures r != [] ==> !IsSpace(r[0]) && !IsSpace(r[|r| - 1])
  {
    StripWhere(s, IsSpace)
  }

  /** Stripping a string that neither starts nor ends with a dropped character changes nothing. */
  lemma {:induction false} StripWhereNoop(s: string, drop: char -> bool)
    requires s != [] ==> !drop(s[0]) && !drop(s[|s| - 1])
    ensures StripWhere(s, drop) == s
  {
    var i := LeadingCount(s, drop);
    assert i == 0;
    assert s[i..] == s;
    var t := TrailingCount(s, drop);
    assert t == 0;
  }

  /** Python's `strip` is idempotent. */
  lemma StripWhereIdempotent(s: string, drop: char -> bool)
    ensures StripWhere(StripWhere(s, drop), drop) == StripWhere(s, drop)
  {
    StripWhereNoop(StripWhere(s, drop), drop);
  }

  // ---------------------------------------------------------------- decimal numbers

  /** Python's `str(n)` for a non-negative integer. */
  function NatToString(n: nat): (r: string)
    ensures r != []
    ensures forall i :: 0 <= i < |r| ==> IsDigit(r[i])
    ensures |r| > 1 ==> r[0] != '0'
  {
    if n < 10 then [Digit(n)] else NatToString(n / 10) + [Digit(n % 10)]
  }

  function Digit(d: nat): (c: char)
    requires d < 10
    ensures IsDigit(c) && c as int - '0' as int == d
    ensures d != 0 ==> c != '0'
  {
    ['0', '1', '2', '3', '4', '5', '6', '7', '8', '9'][d]
  }

  /** The number that a string of decimal digits denotes. */
  function DecimalValue(s: string): nat
    requires forall i :: 0 <= i < |s| ==> IsDigit(s[i])
  {
    if s == [] then 0
    else
      var last := s[|s| - 1];
      assert IsDigit(last);
      DecimalValue(s[..|s| - 1]) * 10 + (last as int - '0' as int)
  }

  /** Reading back the digits that `str(n)` writes gives `n`. */
  lemma {:induction false} NatToStringRoundTrip(n: nat)
    ensures DecimalValue(NatToString(n)) == n
  {
    var s := NatToString(n);
    if n >= 10 {
      NatToStringRoundTrip(n / 10);
      assert s[..|s| - 1] == NatToString(n / 10);
    }
  }

  /** Python's `f"{n:03d}"`: at least three digits, zero-padded on the left. */
  function Pad3(n: nat): (r: string)
    ensures |r| >= 3
    ensures forall i :: 0 <= i < |r| ==> IsDigit(r[i])
    ensures DecimalValue(r) == n
  {
    var s := NatToString(n);
    NatToStringRoundTrip(n);
    var r := Zeros(3 - |s|) + s;
    LeadingZerosValue(3 - |s|, s);
    r
  }

  function Zeros(k: int): (r: string)
    ensures |r| == if k < 0 then 0 else k
    ensures forall i :: 0 <= i < |r| ==> r[i] == '0'
    decreases k
  {
    if k <= 0 then [] else ['0'] + Zeros(k - 1)
  }

  /** Leading zeros do not change the value of a decimal string. */
  lemma {:induction false} LeadingZerosValue(k: int, s: string)
    requires forall i :: 0 <= i < |s| ==> IsDigit(s[i])
    ensures forall i :: 0 <= i < |Zeros(k) + s| ==> IsDigit((Zeros(k) + s)[i])
    ensures DecimalValue(Zeros(k) + s) == DecimalValue(s)
    decreases |s|
  {
    var z := Zeros(k);
    if s == [] {
      assert z + s == z;
      ZerosValue(k);
    } else {
      var t := s[..|s| - 1];
      LeadingZerosValue(k, t);
      assert (z + s)[..|z + s| - 1] == z + t;
    }
  }

  lemma {:induction false} ZerosValue(k: int)
    ensures forall i :: 0 <= i < |Zeros(k)| ==> IsDigit(Zeros(k)[i])
    ensures DecimalValue(Zeros(k)) == 0
    decreases k
  {
    if k > 0 {
      ZerosValue(k - 1);
      var z := Zeros(k);
      var w := z[..|z| - 1];
      assert w == Zeros(k - 1) by {
        assert forall i :: 0 <= i < |w| ==> w[i] == Zeros(k - 1)[i];
      }
    }
  }

  // ---------------------------------------------------------------- lines of a text file

  /** The text `save_to_file` writes: every line followed by a newline, in order. */
  function JoinLines(lines: seq<string>): (text: string)
    ensures |text| >= |lines|
  {
    if lines == [] then [] else lines[0] + "\n" + JoinLines(lines[1..])
  }

  /**
   * The lines Python yields when iterating over a text file: each piece ends just after a
   * newline, except a last piece without one.
   */
  function FileLines(text: string): (lines: seq<string>)
    ensures forall i :: 0 <= i < |lines| ==> lines[i] != []
    decreases |text|
  {
    if text == [] then []
    else
      var n := FindIn(text, {'\n'});
      if n == |text| then [text] else [text[..n + 1]] + FileLines(text[n + 1..])
  }

  /** `p` holds of every element of `s`. */
  predicate AllOf(p: string -> bool, s: seq<string>) {
    s != [] ==> AllOf(p, s[..|s| - 1]) && p(s[|s| - 1])
  }

  /** An element for which `p` holds, appended to a list of them, gives a list of them. */
  lemma AllOfSnoc(p: string -> bool, s: seq<string>, x: string)
    requires AllOf(p, s) && p(x)
    ensures AllOf(p, s + [x])
  {
    assert (s + [x])[..|s|] == s;
  }

  /** `p` holds of each member of a list of which `AllOf(p, _)` holds. */
  lemma {:induction false} AllOfMember(p: string -> bool, s: seq<string>, x: string)
    requires AllOf(p, s) && x in s
    ensures p(x)
  {
    if x != s[|s| - 1] {
      assert x in s[..|s| - 1];
      AllOfMember(p, s[..|s| - 1], x);
    }
  }

  /** A non-empty list of strings is its first element followed by the rest. */
  lemma SplitFirst(s: seq<string>)
    requires s != []
    ensures s == [s[0]] + s[1..]
  {
  }

  /** A non-empty list of strings is all but its last element followed by the last. */
  lemma SplitLast(s: seq<string>)
    requires s != []
    ensures s == s[..|s| - 1] + [s[|s| - 1]]
  {
  }

  /** The first line of a joined text is read back with its newline, before the rest. */
  lemma FileLinesOfJoinCons(lines: seq<string>)
    requires lines != [] && '\n' !in lines[0]
    ensures FileLines(JoinLines(lines)) == [lines[0] + "\n"] + FileLines(JoinLines(lines[1..]))
  {
    var text := JoinLines(lines);
    var head := lines[0] + "\n";
    assert text == head + JoinLines(lines[1..]);
    assert FindIn(text, {'\n'}) == |lines[0]| by {
      assert text[|lines[0]|] == '\n';
      assert forall i :: 0 <= i < |lines[0]| ==> text[i] == lines[0][i];
    }
    assert text[..|lines[0]| + 1] == head;
    assert text[|lines[0]| + 1..] == JoinLines(lines[1..]);
  }

  /** Reading back what `save_to_file` wrote yields each line with its newline, in order. */
  lemma {:induction false} FileLinesOfJoin(lines: seq<string>)
    requires forall i :: 0 <= i < |lines| ==> '\n' !in lines[i]
    ensures FileLines(JoinLines(lines)) == seq(|lines|, i requires 0 <= i < |lines| => lines[i] + "\n")
  {
    if lines != [] {
      FileLinesOfJoinCons(lines);
      FileLinesOfJoin(lines[1..]);
    }
  }

  /** A line without whitespace is what `strip` leaves of it followed by its newline. */
  lemma StripLine(line: string)
    requires line != [] && forall k :: 0 <= k < |line| ==> !IsSpace(line[k])
    ensures Strip(line + "\n") == line
  {
    var s := line + "\n";
    assert LeadingCount(s, IsSpace) == 0;
    var r := Strip(s);
    assert r == s[0..|r|];
    assert s[|line|] == '\n' && IsSpace('\n');
    assert !IsSpace(s[|line| - 1]);
    assert r[|r| - 1] == s[|r| - 1];
    assert s[..|line|] == line;
  }
}
