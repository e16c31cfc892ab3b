/**
 * The PHP string built-ins the grouping script relies on: `trim` with its
 * default character list, ASCII `strtolower`, `implode`, and the decimal
 * rendering PHP applies when an integer is written out as text.
 *
 * PHP strings are byte strings; every operation here only inspects or
 * rewrites ASCII characters, so a string is modelled as `seq<char>` and
 * characters outside ASCII pass through unchanged.
 */
module PhpStrings {

  /** The characters stripped by `trim` when no list is given:
      space, tab, newline, carriage return, NUL and vertical tab. */
  predicate IsTrimChar(c: char) {
    c == ' ' || c == '\t' || c == '\n' || c == '\r' || c == 0 as char || c == 11 as char
  }

  /** `ltrim`: drop leading trim characters. */
  function TrimLeft(s: string): string {
    if |s| > 0 && IsTrimChar(s[0]) then TrimLeft(s[1..]) else s
  }

  /** `rtrim`: drop trailing trim characters. */
  function TrimRight(s: string): string {
    if |s| > 0 && IsTrimChar(s[|s| - 1]) then TrimRight(s[..|s| - 1]) else s
  }

  /** `trim`: strip trim characters from both ends. */
  function Trim(s: string): string {
    TrimRight(TrimLeft(s))
  }

  /** `ltrim` keeps a suffix of its argument, drops only trim characters,
      and leaves no trim character in front. */
  lemma {:induction false} TrimLeftSpec(s: string)
    ensures |TrimLeft(s)| <= |s|
    ensures forall k :: 0 <= k < |TrimLeft(s)| ==> TrimLeft(s)[k] == s[|s| - |TrimLeft(s)| + k]
    ensures forall k :: 0 <= k < |s| - |TrimLeft(s)| ==> IsTrimChar(s[k])
    ensures TrimLeft(s) == [] || !IsTrimChar(TrimLeft(s)[0])
  {
    if |s| > 0 && IsTrimChar(s[0]) {
      TrimLeftSpec(s[1..]);
    }
  }

  /** `rtrim` keeps a prefix of its argument, drops only trim characters,
      and leaves no trim character at the end. */
  lemma {:induction false} TrimRightSpec(s: string)
    ensures |TrimRight(s)| <= |s|
    ensures forall k :: 0 <= k < |TrimRight(s)| ==> TrimRight(s)[k] == s[k]
    ensures forall k :: |TrimRight(s)| <= k < |s| ==> IsTrimChar(s[k])
    ensures TrimRight(s) == [] || !IsTrimChar(TrimRight(s)[|TrimRight(s)| - 1])
  {
    if |s| > 0 && IsTrimChar(s[|s| - 1]) {
      TrimRightSpec(s[..|s| - 1]);
    }
  }

  /** The result of `trim` starts and ends with a kept character, and a
      string with no trim character at all is left as it is. */
  lemma TrimSpec(s: string)
    ensures |Trim(s)| <= |s|
    ensures Trim(s) == [] || (!IsTrimChar(Trim(s)[0]) && !IsTrimChar(Trim(s)[|Trim(s)| - 1]))
    ensures (forall k :: 0 <= k < |s| ==> !IsTrimChar(s[k])) ==> Trim(s) == s
  {
    TrimLeftSpec(s);
    TrimRightSpec(TrimLeft(s));
    var l := TrimLeft(s);
    if Trim(s) != [] {
      assert Trim(s)[0] == l[0];
    }
  }

  /** Trimming adds no character: what `s` lacks, `Trim(s)` lacks. */
  lemma TrimNoNewChar(s: string, c: char)
    requires c !in s
    ensures c !in Trim(s)
  {
    TrimLeftSpec(s);
    var l := TrimLeft(s);
    TrimRightSpec(l);
    var t := Trim(s);
    forall k | 0 <= k < |t| ensures t[k] != c {
      var j := |s| - |l| + k;
      assert t[k] == l[k] == s[j];
      assert s[j] in s;
    }
  }

  /** Trimming a trimmed string changes nothing. */
  lemma TrimIdempotent(s: string)
    ensures Trim(Trim(s)) == Trim(s)
  {
    TrimSpec(s);
    var t := Trim(s);
    assert TrimLeft(t) == t;
    assert TrimRight(t) == t;
  }

  /** ASCII `strtolower` on one character. */
  function LowerChar(c: char): (r: char)
    ensures 'A' <= c <= 'Z' ==> 'a' <= r <= 'z' && r as int == c as int + 32
    ensures !('A' <= c <= 'Z') ==> r == c
  {
    if 'A' <= c <= 'Z' then (c as int + 32) as char else c
  }

  /** `strtolower`: lower-case every ASCII capital, leave all else. */
  function ToLower(s: string): (r: string)
    ensures |r| == |s|
    ensures forall k :: 0 <= k < |s| ==> r[k] == LowerChar(s[k])
  {
    seq(|s|, k requires 0 <= k < |s| => LowerChar(s[k]))
  }

  /** Lower-casing creates no character outside `a`-`z` that was not
      already there. */
  lemma ToLowerNoNewChar(s: string, c: char)
    requires c !in s && !('a' <= c <= 'z')
    ensures c !in ToLower(s)
  {
    assert forall k :: 0 <= k < |s| ==> ToLower(s)[k] != c;
  }

  /** `a` and `b` are one character, or the capital and small form of one
      ASCII letter. */
  predicate SameUpToCase(a: char, b: char) {
    || a == b
    || ('A' <= a <= 'Z' && b as int == a as int + 32)
    || ('A' <= b <= 'Z' && a as int == b as int + 32)
  }

  /** Two characters lower-case alike exactly when they agree up to ASCII
      case. */
  lemma LowerCharEqual(a: char, b: char)
    ensures LowerChar(a) == LowerChar(b) <==> SameUpToCase(a, b)
  {
  }

  /** Two strings lower-case alike exactly when they have the same length
      and agree position by position up to ASCII case: `Red`, `red` and
      `RED` share a lower case, `Bed` and `Aed` do not. */
  lemma ToLowerEqual(s: string, t: string)
    ensures ToLower(s) == ToLower(t) <==>
      |s| == |t| && forall k :: 0 <= k < |s| ==> SameUpToCase(s[k], t[k])
  {
    if ToLower(s) == ToLower(t) {
      forall k | 0 <= k < |s| ensures SameUpToCase(s[k], t[k]) {
        assert ToLower(s)[k] == ToLower(t)[k];
        LowerCharEqual(s[k], t[k]);
      }
    }
    if |s| == |t| && forall k :: 0 <= k < |s| ==> SameUpToCase(s[k], t[k]) {
      forall k | 0 <= k < |s| ensures ToLower(s)[k] == ToLower(t)[k] {
        LowerCharEqual(s[k], t[k]);
      }
    }
  }

  /** `implode(sep, parts)`. */
  function Join(sep: string, parts: seq<string>): string
  {
    if |parts| == 0 then ""
    else if |parts| == 1 then parts[0]
    else parts[0] + sep + Join(sep, parts[1..])
  }

  /** Two strings, each free of `c`, followed by `c` and anything: the
      first occurrence of `c` separates them the same way. */
  lemma SplitAtFirst(x: string, u: string, y: string, v: string, c: char)
    requires c !in x && c !in y
    requires x + [c] + u == y + [c] + v
    ensures x == y && u == v
  {
    var lhs := x + [c] + u;
    var rhs := y + [c] + v;
    assert lhs[|x|] == c && rhs[|y|] == c;
    assert forall k :: 0 <= k < |x| ==> lhs[k] == x[k] != c;
    assert forall k :: 0 <= k < |y| ==> rhs[k] == y[k] != c;
    assert x == lhs[..|x|] == rhs[..|y|] == y;
    assert u == lhs[|x| + 1..] == rhs[|y| + 1..] == v;
  }

  /** `implode` with a one-character separator is injective on lists of
      equal length whose items do not contain the separator. */
  lemma {:induction false} JoinInjective(c: char, a: seq<string>, b: seq<string>)
    requires |a| == |b|
    requires forall k :: 0 <= k < |a| ==> c !in a[k]
    requires forall k :: 0 <= k < |b| ==> c !in b[k]
    requires Join([c], a) == Join([c], b)
    ensures a == b
  {
    if |a| >= 2 {
      SplitAtFirst(a[0], Join([c], a[1..]), b[0], Join([c], b[1..]), c);
      JoinInjective(c, a[1..], b[1..]);
      assert a == [a[0]] + a[1..];
      assert b == [b[0]] + b[1..];
    }
  }

  /** The decimal digits of a natural number, as PHP prints an int: no
      leading zero except for zero itself. */
  function NatToString(n: nat): (r: string)
    ensures |r| >= 1
    ensures forall k :: 0 <= k < |r| ==> '0' <= r[k] <= '9'
    ensures r[0] == '0' ==> n == 0
    decreases n
  {
    var d := [('0' as int + n % 10) as char];
    if n < 10 then d else NatToString(n / 10) + d
  }

  /** The number a string of decimal digits stands for. */
  function DigitsValue(s: string): nat
    requires forall k :: 0 <= k < |s| ==> '0' <= s[k] <= '9'
  {
    if s == [] then 0
    else DigitsValue(s[..|s| - 1]) * 10 + (s[|s| - 1] as int - '0' as int)
  }

  /** Reading the printed digits back gives the number. */
  lemma {:induction false} NatToStringValue(n: nat)
    ensures DigitsValue(NatToString(n)) == n
    decreases n
  {
    var s := NatToString(n);
    if n >= 10 {
      NatToStringValue(n / 10);
      assert s[..|s| - 1] == NatToString(n / 10);
    }
  }
}
