/**
 String operations the compilers share: last-separator splits (`rfind`, `rsplit`,
 `rsplit_once`), prefix stripping and segment lists.
 */
module Text {
  import opened Wrappers

  predicate DotFree(s: string) { '.' !in s }

  /** Position of the last `c`, or -1. */
  function LastIndex(s: string, c: char): (i: int)
    ensures -1 <= i < |s|
    ensures i >= 0 ==> s[i] == c
    ensures forall j :: i < j < |s| ==> s[j] != c
  {
    if s == [] then -1
    else if s[|s| - 1] == c then |s| - 1
    else LastIndex(s[..|s| - 1], c)
  }

  /** The segment after the last dot; all of `s` when there is none. */
  function Simple(s: string): string {
    s[LastIndex(s, '.') + 1..]
  }

  /** Everything up to and including the last dot. */
  function Qualifier(s: string): string {
    s[..LastIndex(s, '.') + 1]
  }

  predicate IsQualifier(q: string) {
    q == "" || q[|q| - 1] == '.'
  }

  lemma SimpleParts(s: string)
    ensures Qualifier(s) + Simple(s) == s
    ensures DotFree(Simple(s))
    ensures IsQualifier(Qualifier(s))
  {}

  /** A qualifier and a dot-free segment determine each other from their concatenation. */
  lemma QualifiedParts(q: string, n: string)
    requires IsQualifier(q) && DotFree(n)
    ensures Simple(q + n) == n
    ensures Qualifier(q + n) == q
  {
    var s := q + n;
    var i := LastIndex(s, '.');
    assert q != "" ==> s[|q| - 1] == '.';
    assert i == |q| - 1;
  }

  /** `split(c)`: always at least one segment. */
  function Split(s: string, c: char): (r: seq<string>)
    ensures r != []
  {
    if s == "" then [""]
    else if s[0] == c then [""] + Split(s[1..], c)
    else
      var r := Split(s[1..], c);
      [[s[0]] + r[0]] + r[1..]
  }

  function Join(segments: seq<string>, c: char): string {
    if segments == [] then ""
    else if |segments| == 1 then segments[0]
    else segments[0] + [c] + Join(segments[1..], c)
  }

  lemma SplitLonger(x: char, s: string, c: char)
    requires x != c
    ensures Split([x] + s, c) == [[x] + Split(s, c)[0]] + Split(s, c)[1..]
  {
    assert ([x] + s)[1..] == s;
  }

  lemma {:induction false} SplitJoin(segments: seq<string>, c: char)
    requires segments != []
    requires forall i :: 0 <= i < |segments| ==> c !in segments[i]
    ensures Split(Join(segments, c), c) == segments
    decreases |segments|, |segments[0]|
  {
    var first := segments[0];
    if first == "" {
      if |segments| > 1 {
        SplitJoin(segments[1..], c);
        assert Join(segments, c) == [c] + Join(segments[1..], c);
      }
    } else {
      var shorter := [first[1..]] + segments[1..];
      SplitJoin(shorter, c);
      assert first[0] in first;
      assert Join(segments, c) == [first[0]] + Join(shorter, c) by {
        assert first == [first[0]] + first[1..];
        assert shorter[1..] == segments[1..];
      }
      SplitLonger(first[0], Join(shorter, c), c);
      assert segments == [[first[0]] + shorter[0]] + shorter[1..];
    }
  }

  lemma {:induction false} JoinSplit(s: string, c: char)
    ensures Join(Split(s, c), c) == s
    ensures forall i :: 0 <= i < |Split(s, c)| ==> c !in Split(s, c)[i]
    decreases |s|
  {
    if s != "" {
      JoinSplit(s[1..], c);
      var r := Split(s[1..], c);
      if s[0] == c {
        assert ([""] + r)[1..] == r;
      } else {
        var l := [[s[0]] + r[0]] + r[1..];
        assert l[1..] == r[1..];
        assert [s[0]] + s[1..] == s;
      }
    }
  }

  function StripPrefix(s: string, p: string): Option<string> {
    if p <= s then Some(s[|p|..]) else None
  }

  predicate EndsWith(s: string, p: string) {
    |p| <= |s| && s[|s| - |p|..] == p
  }

  /** The Unicode White_Space property. */
  predicate IsWhitespace(c: char) {
    var n := c as int;
    || 0x9 <= n <= 0xD || n == 0x20 || n == 0x85 || n == 0xA0 || n == 0x1680 || 0x2000 <= n <= 0x200A
    || n == 0x2028 || n == 0x2029 || n == 0x202F || n == 0x205F || n == 0x3000
  }

  function TrimStart(s: string): (r: string)
    ensures |r| <= |s| && (r != "" ==> !IsWhitespace(r[0]))
  {
    if s != "" && IsWhitespace(s[0]) then TrimStart(s[1..]) else s
  }

  function TrimEnd(s: string): (r: string)
    ensures |r| <= |s| && (r != "" ==> !IsWhitespace(r[|r| - 1]))
  {
    if s != "" && IsWhitespace(s[|s| - 1]) then TrimEnd(s[..|s| - 1]) else s
  }

  function Trim(s: string): (r: string)
    ensures |r| <= |s|
  {
    TrimEnd(TrimStart(s))
  }

  /** Decimal digits without leading zeros. */
  function Decimal(n: nat): string {
    if n < 10 then ['0' + n as char] else Decimal(n / 10) + ['0' + (n % 10) as char]
  }

  predicate IsDigit(c: char) { '0' <= c <= '9' }

  function DigitsValue(s: string): nat
    requires forall i :: 0 <= i < |s| ==> IsDigit(s[i])
  {
    if s == "" then 0
    else
      assert IsDigit(s[|s| - 1]);
      10 * DigitsValue(s[..|s| - 1]) + (s[|s| - 1] - '0') as int
  }

  lemma {:induction false} DecimalDigits(n: nat)
    ensures Decimal(n) != "" && (forall i :: 0 <= i < |Decimal(n)| ==> IsDigit(Decimal(n)[i]))
    ensures DigitsValue(Decimal(n)) == n
    decreases n
  {
    if n < 10 {
      assert Decimal(n)[..0] == "";
    } else {
      DecimalDigits(n / 10);
      assert Decimal(n)[..|Decimal(n)| - 1] == Decimal(n / 10);
    }
  }

  lemma DecimalInjective(a: nat, b: nat)
    requires Decimal(a) == Decimal(b)
    ensures a == b
  {
    DecimalDigits(a);
    DecimalDigits(b);
  }

  /** The Unicode control characters (category Cc). */
  predicate IsControl(c: char) {
    var n := c as int;
    n <= 0x1F || 0x7F <= n <= 0x9F
  }

  /** Position of the first `c`. */
  function FirstIndex(s: string, c: char): (r: Option<nat>)
    ensures r.Some? ==> r.value < |s| && s[r.value] == c && c !in s[..r.value]
    ensures r.None? ==> c !in s
  {
    if s == "" then None
    else if s[0] == c then Some(0)
    else
      match FirstIndex(s[1..], c)
      case None => None
      case Some(i) => Some(i + 1)
  }

  /** A string cut at the first `c`. */
  lemma CutAtFirst(s: string, c: char, i: nat)
    requires FirstIndex(s, c) == Some(i)
    ensures i < |s| && s == s[..i] + [c] + s[i + 1..] && c !in s[..i]
  {}

  lemma FirstIndexAfter(p: string, c: char, rest: string)
    requires c !in p
    ensures FirstIndex(p + [c] + rest, c) == Some(|p|)
  {
    var s := p + [c] + rest;
    assert s[|p|] == c;
    forall j | 0 <= j < |p| ensures s[j] != c {
      assert s[j] == p[j];
    }
  }
}
