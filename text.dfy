/**
 * The part of JavaScript's String.prototype.trim that the task list relies on:
 * removing leading and trailing white space (the WhiteSpace and LineTerminator
 * code points of ECMAScript) from the input text.
 */
module Text {

  /** ECMAScript WhiteSpace or LineTerminator. */
  predicate IsWhitespace(c: char) {
    var u := c as int;
    (0x09 <= u <= 0x0D) || u == 0x20 || u == 0xA0 || u == 0x1680 ||
    (0x2000 <= u <= 0x200A) || u == 0x2028 || u == 0x2029 || u == 0x202F ||
    u == 0x205F || u == 0x3000 || u == 0xFEFF
  }

  predicate AllWhitespace(s: string) {
    forall k :: 0 <= k < |s| ==> IsWhitespace(s[k])
  }

  /** Length of the longest white-space prefix of s. */
  function LeadingLength(s: string): (n: nat)
    ensures n <= |s|
    ensures AllWhitespace(s[..n])
    ensures n < |s| ==> !IsWhitespace(s[n])
  {
    if s == [] || !IsWhitespace(s[0]) then 0
    else
      var m := LeadingLength(s[1..]);
      assert s[..m + 1] == [s[0]] + s[1..][..m];
      m + 1
  }

  /** Length of the longest white-space suffix of s. */
  function TrailingLength(s: string): (n: nat)
    ensures n <= |s|
    ensures AllWhitespace(s[|s| - n..])
    ensures n < |s| ==> !IsWhitespace(s[|s| - n - 1])
  {
    if s == [] || !IsWhitespace(s[|s| - 1]) then 0
    else
      var init := s[..|s| - 1];
      var m := TrailingLength(init);
      assert s[|s| - (m + 1)..] == init[|init| - m..] + [s[|s| - 1]];
      m + 1
  }

  /** The text without its leading and trailing white space. */
  function Trim(s: string): (r: string)
    ensures |r| <= |s|
    ensures r == [] || (!IsWhitespace(r[0]) && !IsWhitespace(r[|r| - 1]))
  {
    var rest := s[LeadingLength(s)..];
    rest[..|rest| - TrailingLength(rest)]
  }

  /** The input is the trimmed text framed by white space on both sides. */
  lemma TrimFramed(s: string)
    ensures exists i :: (0 <= i <= |s| - |Trim(s)| && s[i..i + |Trim(s)|] == Trim(s)
      && AllWhitespace(s[..i]) && AllWhitespace(s[i + |Trim(s)|..]))
  {
    var i := LeadingLength(s);
    var rest := s[i..];
    var t := TrailingLength(rest);
    var r := Trim(s);
    assert r == rest[..|rest| - t];
    assert s[i..i + |r|] == r;
    assert s[i + |r|..] == rest[|rest| - t..];
  }

  /** Trimming yields the empty text exactly when the input is all white space. */
  lemma TrimEmptyIff(s: string)
    ensures Trim(s) == [] <==> AllWhitespace(s)
  {
    var i := LeadingLength(s);
    var rest := s[i..];
    if Trim(s) == [] {
      assert s[..i] == s;
    } else {
      assert !IsWhitespace(Trim(s)[0]);
      assert Trim(s)[0] == s[i];
    }
  }

  /** Trimming twice is trimming once. */
  lemma TrimIdempotent(s: string)
    ensures Trim(Trim(s)) == Trim(s)
  {
    var r := Trim(s);
    if r != [] {
      assert LeadingLength(r) == 0;
      assert r[0..] == r;
      assert TrailingLength(r) == 0;
    }
  }
}
