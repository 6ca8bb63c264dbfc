/**
 * The Python string primitives that the ingestion code relies on: the
 * whitespace class shared by `str.isspace`, `str.strip` and the regular
 * expression class `\s`; ASCII digits; `lower`; `replace` of one character;
 * `strip`; `"\n".join` and its inverse `split("\n")`; and `str(int)`.
 */
module PyText {

  /** The characters Python treats as whitespace in `str.strip()` and in `\s`. */
  predicate IsSpace(c: char) {
    var n := c as int;
    n == 0x20 || 0x09 <= n <= 0x0D || 0x1C <= n <= 0x1F || n == 0x85 || n == 0xA0
    || n == 0x1680 || 0x2000 <= n <= 0x200A || n == 0x2028 || n == 0x2029
    || n == 0x202F || n == 0x205F || n == 0x3000
  }

  predicate IsDigit(c: char) {
    '0' <= c <= '9'
  }

  ghost predicate AllSpace(s: string) {
    forall k :: 0 <= k < |s| ==> IsSpace(s[k])
  }

  /** Neither the first nor the last character is whitespace. */
  ghost predicate NoEdgeSpace(s: string) {
    s == [] || (!IsSpace(s[0]) && !IsSpace(s[|s| - 1]))
  }

  /** `r` is `s` with a whitespace-only prefix and a whitespace-only suffix cut off. */
  ghost predicate StrippedFrom(r: string, s: string) {
    exists i, j :: 0 <= i <= j <= |s| && r == s[i..j] && AllSpace(s[..i]) && AllSpace(s[j..])
  }

  function LowerChar(c: char): char {
    if 'A' <= c <= 'Z' then (c as int + 32) as char else c
  }

  /** `s.lower()`, restricted to the ASCII letters. */
  function Lower(s: string): (r: string)
    ensures |r| == |s|
  {
    seq(|s|, i requires 0 <= i < |s| => LowerChar(s[i]))
  }

  /** `s.replace(a, b)` for single characters `a` and `b`. */
  function ReplaceChar(s: string, a: char, b: char): (r: string)
    ensures |r| == |s|
  {
    seq(|s|, i requires 0 <= i < |s| => if s[i] == a then b else s[i])
  }

  /** The number of whitespace characters at the start of `s`. */
  function LeadingSpace(s: string): (k: nat)
    ensures k <= |s|
    ensures forall i :: 0 <= i < k ==> IsSpace(s[i])
    ensures k < |s| ==> !IsSpace(s[k])
  {
    if s != [] && IsSpace(s[0]) then 1 + LeadingSpace(s[1..]) else 0
  }

  /** The index where the whitespace at the end of `s` begins. */
  function TrailingStart(s: string): (k: nat)
    ensures k <= |s|
    ensures forall i :: k <= i < |s| ==> IsSpace(s[i])
    ensures 0 < k ==> !IsSpace(s[k - 1])
  {
    if s != [] && IsSpace(s[|s| - 1]) then TrailingStart(s[..|s| - 1]) else |s|
  }

  /** Any split point with whitespace before it and none at it is `LeadingSpace`. */
  lemma LeadingSpaceUnique(s: string, k: nat)
    requires k <= |s| && (forall i :: 0 <= i < k ==> IsSpace(s[i]))
    requires k < |s| ==> !IsSpace(s[k])
    ensures LeadingSpace(s) == k
  {
  }

  /** Any split point with only whitespace after it and none just before is `TrailingStart`. */
  lemma TrailingStartUnique(s: string, k: nat)
    requires k <= |s| && (forall i :: k <= i < |s| ==> IsSpace(s[i]))
    requires 0 < k ==> !IsSpace(s[k - 1])
    ensures TrailingStart(s) == k
  {
  }

  /** `s.lstrip()`. */
  function LStrip(s: string): (r: string)
    ensures |r| <= |s| && r == s[|s| - |r|..]
    ensures AllSpace(s[..|s| - |r|])
    ensures r == [] || !IsSpace(r[0])
  {
    var k := LeadingSpace(s);
    assert forall i :: 0 <= i < k ==> s[..k][i] == s[i];
    s[k..]
  }

  /** `s.rstrip()`. */
  function RStrip(s: string): (r: string)
    ensures |r| <= |s| && r == s[..|r|]
    ensures AllSpace(s[|r|..])
    ensures r == [] || !IsSpace(r[|r| - 1])
  {
    var k := TrailingStart(s);
    assert forall i :: 0 <= i < |s| - k ==> s[k..][i] == s[k + i];
    s[..k]
  }

  /** A suffix that starts no later than the trailing whitespace keeps the same
      trailing whitespace. */
  lemma TrailingStartSuffix(s: string, c: nat)
    requires c <= TrailingStart(s)
    ensures TrailingStart(s[c..]) == TrailingStart(s) - c
  {
    var k := TrailingStart(s);
    var u := s[c..];
    forall i | k - c <= i < |u| ensures IsSpace(u[i]) {
      assert u[i] == s[i + c];
    }
    if k - c > 0 {
      assert u[k - c - 1] == s[k - 1];
    }
    TrailingStartUnique(u, k - c);
  }

  /** The same fact about `rstrip`. */
  lemma RStripSuffix(s: string, c: nat)
    requires c <= TrailingStart(s)
    ensures RStrip(s[c..]) == s[c..TrailingStart(s)]
  {
    TrailingStartSuffix(s, c);
    RStripIsPrefix(s[c..]);
    SuffixPrefix(s, c, TrailingStart(s) - c);
  }

  /** `rstrip` keeps the prefix up to the trailing whitespace. */
  lemma RStripIsPrefix(x: string)
    ensures RStrip(x) == x[..TrailingStart(x)]
  {
  }

  /** A prefix of a suffix is an infix. */
  lemma SuffixPrefix(s: string, c: nat, m: nat)
    requires c + m <= |s|
    ensures s[c..][..m] == s[c..c + m]
  {
  }

  /** `s.strip()`. */
  function Strip(s: string): string
  {
    RStrip(LStrip(s))
  }

  /** `s.strip()` is the longest infix of `s` that neither starts nor ends with whitespace. */
  lemma StripSpec(s: string)
    ensures NoEdgeSpace(Strip(s))
    ensures StrippedFrom(Strip(s), s)
  {
    var t := LStrip(s);
    var r := RStrip(t);
    var i := |s| - |t|;
    var j := i + |r|;
    assert t == s[i..];
    assert r == t[..|r|];
    assert r == s[i..j];
    assert AllSpace(s[..i]);
    assert s[j..] == t[|r|..];
    assert AllSpace(s[j..]);
    assert r != [] ==> r[0] == t[0];
  }

  /** The first half of `StripSpec` on its own. */
  lemma StripNoEdge(s: string)
    ensures NoEdgeSpace(Strip(s))
  {
    var t := LStrip(s);
    var r := RStrip(t);
    assert r != [] ==> r[0] == t[0];
  }

  /** Stripping a string that has no whitespace at either end changes nothing. */
  lemma StripIdempotent(s: string)
    requires NoEdgeSpace(s)
    ensures Strip(s) == s
  {
    LeadingSpaceUnique(s, 0);
    assert LStrip(s) == s;
    TrailingStartUnique(s, |s|);
  }

  /** A string strips to "" exactly when it consists of whitespace only. */
  lemma {:induction false} StripEmptyIffAllSpace(s: string)
    ensures Strip(s) == [] <==> AllSpace(s)
  {
    var t := LStrip(s);
    var n := |s| - |t|;
    assert t == s[n..];
    if Strip(s) == [] {
      assert AllSpace(t[0..]);
      assert t == [];
      forall k | 0 <= k < |s| ensures IsSpace(s[k]) {
        assert s[k] == s[..n][k];
      }
    }
  }

  /** `"\n".join(lines)`. */
  function JoinLines(lines: seq<string>): string
  {
    if lines == [] then ""
    else if |lines| == 1 then lines[0]
    else lines[0] + "\n" + JoinLines(lines[1..])
  }

  /** The index of the first `c` in `s`, or `|s|` when there is none. */
  function IndexOf(s: string, c: char): (k: nat)
    ensures k <= |s|
    ensures k < |s| ==> s[k] == c
    ensures forall i :: 0 <= i < k ==> s[i] != c
  {
    if s == [] then 0
    else if s[0] == c then 0
    else 1 + IndexOf(s[1..], c)
  }

  /** `s.split("\n")`. */
  function SplitLines(s: string): (parts: seq<string>)
    ensures |parts| >= 1
    decreases |s|
  {
    var k := IndexOf(s, '\n');
    if k == |s| then [s] else [s[..k]] + SplitLines(s[k + 1..])
  }

  /** Lines without line breaks survive `"\n".join` followed by `split("\n")`. */
  lemma {:induction false} SplitJoinRoundTrip(lines: seq<string>)
    requires |lines| >= 1
    requires forall i :: 0 <= i < |lines| ==> '\n' !in lines[i]
    ensures SplitLines(JoinLines(lines)) == lines
  {
    var a := lines[0];
    if |lines| == 1 {
      assert IndexOf(a, '\n') == |a|;
    } else {
      var rest := JoinLines(lines[1..]);
      var s := a + "\n" + rest;
      assert s[|a|] == '\n';
      assert forall i :: 0 <= i < |a| ==> s[i] == a[i];
      assert IndexOf(s, '\n') == |a|;
      assert s[..|a|] == a;
      assert s[|a| + 1..] == rest;
      SplitJoinRoundTrip(lines[1..]);
    }
  }

  function DigitChar(d: nat): (c: char)
    requires d < 10
    ensures IsDigit(c)
  {
    ('0' as int + d) as char
  }

  /** `str(n)` for a non-negative integer. */
  function NatToString(n: nat): (r: string)
    ensures |r| >= 1
    ensures forall i :: 0 <= i < |r| ==> IsDigit(r[i])
  {
    if n < 10 then [DigitChar(n)] else NatToString(n / 10) + [DigitChar(n % 10)]
  }

  /** `str(n)` for any integer. */
  function IntToString(n: int): string
  {
    if n < 0 then "-" + NatToString(-n) else NatToString(n)
  }
}
