/** PHP's `trim` with its default character list, on strings of characters. */
module PhpText {

  /** The characters `trim` strips by default: space, tab, line feed, carriage return,
      NUL and vertical tab. */
  predicate IsBlank(c: char) {
    c == ' ' || c == '\t' || c == '\n' || c == '\r' || c == '\U{0000}' || c == '\U{000B}'
  }

  predicate AllBlank(s: string) {
    forall k :: 0 <= k < |s| ==> IsBlank(s[k])
  }

  /** `s` without its leading blanks: a suffix of `s`, everything cut off is blank,
      and what is left does not start with a blank. */
  function TrimStart(s: string): (r: string)
    ensures |r| <= |s| && r == s[|s| - |r|..]
    ensures forall k :: 0 <= k < |s| - |r| ==> IsBlank(s[k])
    ensures r == [] || !IsBlank(r[0])
  {
    if s != [] && IsBlank(s[0]) then TrimStart(s[1..]) else s
  }

  /** `s` without its trailing blanks: a prefix of `s`, everything cut off is blank,
      and what is left does not end with a blank. */
  function TrimEnd(s: string): (r: string)
    ensures |r| <= |s| && r == s[..|r|]
    ensures forall k :: |r| <= k < |s| ==> IsBlank(s[k])
    ensures r == [] || !IsBlank(r[|r| - 1])
  {
    if s != [] && IsBlank(s[|s| - 1]) then TrimEnd(s[..|s| - 1]) else s
  }

  /** `trim(s)`: neither end of the result is blank. */
  function Trim(s: string): (r: string)
    ensures |r| <= |s|
    ensures r == [] || (!IsBlank(r[0]) && !IsBlank(r[|r| - 1]))
  {
    TrimEnd(TrimStart(s))
  }

  /** The trimmed string is a slice `s[i..j]` of the input, and every character
      outside that slice is blank. */
  lemma TrimSlice(s: string) returns (i: nat, j: nat)
    ensures i <= j <= |s| && Trim(s) == s[i..j]
    ensures forall k :: 0 <= k < i ==> IsBlank(s[k])
    ensures forall k :: j <= k < |s| ==> IsBlank(s[k])
  {
    var t := TrimStart(s);
    var u := TrimEnd(t);
    i := |s| - |t|;
    j := i + |u|;
    BlankTailOfSuffix(s, i, |u|);
    assert t[..|u|] == s[i..j];
  }

  /** Blanks at the end of the suffix `s[i..]` are blanks at the end of `s`. */
  lemma BlankTailOfSuffix(s: string, i: nat, m: nat)
    requires i <= |s| && m <= |s| - i
    requires forall k :: m <= k < |s| - i ==> IsBlank(s[i..][k])
    ensures forall k :: i + m <= k < |s| ==> IsBlank(s[k])
  {
    forall k | i + m <= k < |s| ensures IsBlank(s[k]) {
      assert s[k] == s[i..][k - i];
    }
  }

  /** `trim(s)` is empty exactly when every character of `s` is blank. */
  lemma TrimEmptyIffAllBlank(s: string)
    ensures Trim(s) == "" <==> AllBlank(s)
  {
  }
}
