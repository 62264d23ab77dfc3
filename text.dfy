/**
  The string operations the application applies to form input: Python's
  `str.strip()`, `str.lower()` and splitting at the last `.`.
 */
module Text {
  import opened Wrappers

  /**
    Python's `str.isspace()` for one character: the code points that
    `str.strip()` with no argument removes.
   */
  predicate IsSpace(c: char) {
    var n := c as int;
    || 0x09 <= n <= 0x0D || 0x1C <= n <= 0x20 || n == 0x85 || n == 0xA0
    || n == 0x1680 || 0x2000 <= n <= 0x200A || n == 0x2028 || n == 0x2029
    || n == 0x202F || n == 0x205F || n == 0x3000
  }

  predicate AllSpace(s: string) {
    forall k :: 0 <= k < |s| ==> IsSpace(s[k])
  }

  /** The number of leading whitespace characters. */
  function LeadingSpaces(s: string): (n: nat)
    ensures n <= |s|
    ensures AllSpace(s[..n])
    ensures n < |s| ==> !IsSpace(s[n])
  {
    if |s| == 0 || !IsSpace(s[0]) then 0
    else
      var n := 1 + LeadingSpaces(s[1..]);
      assert s[..n] == [s[0]] + s[1..][..n - 1];
      n
  }

  /** The length of `s` without its trailing whitespace. */
  function WithoutTrailing(s: string): (n: nat)
    ensures n <= |s|
    ensures AllSpace(s[n..])
    ensures n > 0 ==> !IsSpace(s[n - 1])
  {
    if |s| == 0 || !IsSpace(s[|s| - 1]) then |s|
    else
      var n := WithoutTrailing(s[..|s| - 1]);
      assert s[n..] == s[..|s| - 1][n..] + [s[|s| - 1]];
      n
  }

  /** `s` is `r` with whitespace around it, and `r` neither starts nor ends with whitespace. */
  ghost predicate IsStripOf(s: string, r: string) {
    && (r == [] || (!IsSpace(r[0]) && !IsSpace(r[|r| - 1])))
    && exists i :: 0 <= i <= |s| - |r| && s[i..i + |r|] == r && AllSpace(s[..i]) && AllSpace(s[i + |r|..])
  }

  /** Python's `s.strip()`. */
  function Strip(s: string): (r: string)
    ensures |r| <= |s|
  {
    var i := LeadingSpaces(s);
    s[i..i + WithoutTrailing(s[i..])]
  }

  /** `strip` removes exactly the surrounding whitespace, and leaves nothing exactly when all is whitespace. */
  lemma StripSpec(s: string)
    ensures IsStripOf(s, Strip(s))
    ensures Strip(s) == [] <==> AllSpace(s)
  {
    var i := LeadingSpaces(s);
    var w := WithoutTrailing(s[i..]);
    var j := i + w;
    var r := Strip(s);
    assert r == s[i..j];
    assert s[i..][..w] == r;
    assert s[i..][w..] == s[j..];
    assert AllSpace(s[..i]) && AllSpace(s[j..]);
    if r != [] {
      assert r[0] == s[i] && !IsSpace(s[i]);
      assert r[|r| - 1] == s[i..][w - 1];
    } else {
      assert s[..i] == s;
    }
    assert s[i..i + |r|] == r;
  }

  /** Stripping twice strips no more than stripping once. */
  lemma StripIdempotent(s: string)
    ensures Strip(Strip(s)) == Strip(s)
  {
    StripSpec(s);
    var r := Strip(s);
    if r != [] {
      assert LeadingSpaces(r) == 0;
      assert WithoutTrailing(r) == |r|;
    }
  }

  /** `s` neither starts nor ends with whitespace: the values `strip` returns. */
  predicate Trimmed(s: string) {
    s == [] || (!IsSpace(s[0]) && !IsSpace(s[|s| - 1]))
  }

  /** What `strip` returns is trimmed, and a trimmed string is its own strip. */
  lemma TrimmedStrip(s: string)
    ensures Trimmed(Strip(s))
    ensures Trimmed(s) ==> Strip(s) == s
  {
    StripSpec(s);
    if Trimmed(s) && s != [] {
      assert LeadingSpaces(s) == 0;
      assert s[0..] == s;
      assert WithoutTrailing(s) == |s|;
    }
  }

  /** `str.lower()` on one character, for the ASCII letters. */
  function LowerChar(c: char): (r: char) {
    if 'A' <= c <= 'Z' then (c as int + 32) as char else c
  }

  /**
    `str.lower()`, for the ASCII letters; other characters are kept (see
    the README for what that leaves out).
   */
  function Lower(s: string): (r: string) {
    seq(|s|, k requires 0 <= k < |s| => LowerChar(s[k]))
  }

  predicate HasNoUpper(s: string) {
    forall k :: 0 <= k < |s| ==> !('A' <= s[k] <= 'Z')
  }

  /** A lowered string has no upper-case letter, so lowering it again changes nothing. */
  lemma LowerNormal(s: string)
    ensures HasNoUpper(Lower(s))
    ensures Lower(Lower(s)) == Lower(s)
  {
  }

  /** A string without upper-case letters is its own lowering. */
  lemma LowerFixes(s: string)
    requires HasNoUpper(s)
    ensures Lower(s) == s
  {
  }

  /** Lowering keeps a trimmed string trimmed. */
  lemma LowerKeepsTrimmed(s: string)
    requires Trimmed(s)
    ensures Trimmed(Lower(s))
  {
    if s != [] {
      LowerKeepsSpace(s[0]);
      LowerKeepsSpace(s[|s| - 1]);
    }
  }

  lemma LowerSlice(s: string, i: int, j: int)
    requires 0 <= i <= j <= |s|
    ensures Lower(s)[i..j] == Lower(s[i..j])
  {
  }

  lemma LowerKeepsSpace(c: char)
    ensures IsSpace(LowerChar(c)) == IsSpace(c)
  {
  }

  lemma {:induction false} LeadingSpacesLower(s: string)
    ensures LeadingSpaces(Lower(s)) == LeadingSpaces(s)
  {
    if |s| > 0 {
      LowerKeepsSpace(s[0]);
    }
    if |s| > 0 && IsSpace(s[0]) {
      assert Lower(s)[1..] == Lower(s[1..]);
      LeadingSpacesLower(s[1..]);
    }
  }

  lemma {:induction false} WithoutTrailingLower(s: string)
    ensures WithoutTrailing(Lower(s)) == WithoutTrailing(s)
  {
    if |s| > 0 {
      LowerKeepsSpace(s[|s| - 1]);
    }
    if |s| > 0 && IsSpace(s[|s| - 1]) {
      assert Lower(s)[..|s| - 1] == Lower(s[..|s| - 1]);
      WithoutTrailingLower(s[..|s| - 1]);
    }
  }

  /** Lowering maps whitespace to itself and nothing else to whitespace, so it commutes with stripping. */
  lemma LowerStripCommute(s: string)
    ensures Strip(Lower(s)) == Lower(Strip(s))
  {
    var i := LeadingSpaces(s);
    var j := i + WithoutTrailing(s[i..]);
    assert LeadingSpaces(Lower(s)) == i by {
      LeadingSpacesLower(s);
    }
    assert WithoutTrailing(Lower(s)[i..]) == j - i by {
      assert Lower(s)[i..] == Lower(s[i..]);
      WithoutTrailingLower(s[i..]);
    }
    assert Strip(Lower(s)) == Lower(s)[i..j];
    assert Lower(s)[i..j] == Lower(s[i..j]) by {
      LowerSlice(s, i, j);
    }
  }

  /** The index of the last `.` in `s`, if any. */
  function LastDot(s: string): (k: Option<nat>)
    ensures k.None? <==> '.' !in s
    ensures k.Some? ==> k.value < |s| && s[k.value] == '.' && '.' !in s[k.value + 1..]
  {
    if |s| == 0 then None
    else if s[|s| - 1] == '.' then Some(|s| - 1)
    else
      var k := LastDot(s[..|s| - 1]);
      assert k.Some? ==> s[k.value + 1..] == s[..|s| - 1][k.value + 1..] + [s[|s| - 1]];
      assert k.None? ==> s == s[..|s| - 1] + [s[|s| - 1]];
      k
  }

  /** `s.rsplit(".", 1)[1]` when `s` holds a `.`: the text after the last one. */
  function Extension(s: string): (e: Option<string>) {
    match LastDot(s)
    case None => None
    case Some(k) => Some(s[k + 1..])
  }

  /** A `.` with no `.` after it is the last one, and what follows it is the extension. */
  lemma ExtensionAt(s: string, k: nat)
    requires k < |s| && s[k] == '.' && '.' !in s[k + 1..]
    ensures Extension(s) == Some(s[k + 1..])
  {
    assert s[k] in s;
  }
}
