/** JavaScript's String.prototype.trim, as the task list uses it on user input. */
module Text {

  /** The characters `trim` removes: WhiteSpace and LineTerminator of ECMA-262
      (tab, vertical tab, form feed, space, no-break space, byte order mark,
      the Zs space separators, line feed, carriage return, U+2028, U+2029). */
  predicate IsWhitespace(c: char) {
    var n := c as int;
    (0x09 <= n <= 0x0D) || n == 0x20 || n == 0xA0 || n == 0x1680 || (0x2000 <= n <= 0x200A)
    || n == 0x2028 || n == 0x2029 || n == 0x202F || n == 0x205F || n == 0x3000 || n == 0xFEFF
  }

  predicate AllWhitespace(s: string) {
    AllIn(s, IsWhitespace)
  }

  /** Neither end of `s` is whitespace (the empty string included). */
  predicate IsTrimmed(s: string) {
    EndsOutside(s, IsWhitespace)
  }

  /** `s` without whitespace at either end: the result is the infix of `s`
      that remains once a whitespace prefix and a whitespace suffix are cut
      off, it starts and ends with a non-whitespace character, and it is
      empty exactly when `s` is all whitespace. */
  function Trim(s: string): (r: string)
    ensures IsTrimmed(r)
    ensures var k := Leading(s, IsWhitespace);
      k + |r| <= |s| && r == s[k..k + |r|] && AllWhitespace(s[..k]) && AllWhitespace(s[k + |r|..])
    ensures r == [] <==> AllWhitespace(s)
  {
    Strip(s, IsWhitespace)
  }

  /** Trimming leaves a string without whitespace at its ends as it is, so
      trimming twice is trimming once. */
  lemma TrimKeepsTrimmed(s: string)
    ensures IsTrimmed(s) ==> Trim(s) == s
    ensures Trim(Trim(s)) == Trim(s)
  {
    StripKeepsStripped(s, IsWhitespace);
    StripKeepsStripped(Trim(s), IsWhitespace);
  }

  // The same operations for an arbitrary class of characters `cut`; `Trim`
  // is `Strip` with `cut` the whitespace class.

  predicate AllIn(s: string, cut: char -> bool) {
    forall i :: 0 <= i < |s| ==> cut(s[i])
  }

  predicate EndsOutside(s: string, cut: char -> bool) {
    s == [] || (!cut(s[0]) && !cut(s[|s| - 1]))
  }

  /** The number of characters of the class that `s` starts with. */
  function Leading(s: string, cut: char -> bool): (n: nat)
    ensures n <= |s| && forall i :: 0 <= i < n ==> cut(s[i])
    ensures n < |s| ==> !cut(s[n])
  {
    if s != [] && cut(s[0]) then
      var m := Leading(s[1..], cut);
      assert forall i :: 1 <= i < m + 1 ==> s[i] == s[1..][i - 1];
      m + 1
    else 0
  }

  /** The number of characters of the class that `s` ends with. */
  function Trailing(s: string, cut: char -> bool): (n: nat)
    ensures n <= |s| && forall i :: |s| - n <= i < |s| ==> cut(s[i])
    ensures n < |s| ==> !cut(s[|s| - n - 1])
  {
    if s != [] && cut(s[|s| - 1]) then
      var m := Trailing(s[..|s| - 1], cut);
      assert forall i :: |s| - 1 - m <= i < |s| - 1 ==> s[i] == s[..|s| - 1][i];
      m + 1
    else 0
  }

  /** `s` with the characters of the class cut off at both ends. */
  function Strip(s: string, cut: char -> bool): (r: string)
    ensures EndsOutside(r, cut)
    ensures var k := Leading(s, cut);
      k + |r| <= |s| && r == s[k..k + |r|] && AllIn(s[..k], cut) && AllIn(s[k + |r|..], cut)
    ensures r == [] <==> AllIn(s, cut)
  {
    var k := Leading(s, cut);
    var j := Trailing(s[k..], cut);
    TrailingOfSuffix(s, k, cut);
    StrippedInfix(s, k, j, cut);
    s[k..|s| - j]
  }

  lemma TrailingOfSuffix(s: string, k: nat, cut: char -> bool)
    requires k <= |s|
    ensures var j := Trailing(s[k..], cut);
      k + j <= |s| && (forall i :: |s| - j <= i < |s| ==> cut(s[i]))
      && (k + j < |s| ==> !cut(s[|s| - j - 1]))
  {
    var t := s[k..];
    forall i | k <= i < |s| ensures s[i] == t[i - k] { }
  }

  /** Cutting a prefix of `k` and a suffix of `j` characters of the class, the
      first and the last characters between them being outside it. */
  lemma StrippedInfix(s: string, k: nat, j: nat, cut: char -> bool)
    requires k + j <= |s|
    requires forall i :: 0 <= i < k ==> cut(s[i])
    requires forall i :: |s| - j <= i < |s| ==> cut(s[i])
    requires k < |s| ==> !cut(s[k])
    requires k + j < |s| ==> !cut(s[|s| - j - 1])
    ensures var r := s[k..|s| - j];
      EndsOutside(r, cut) && AllIn(s[..k], cut) && AllIn(s[|s| - j..], cut)
      && (r == [] <==> AllIn(s, cut))
  {
    var r := s[k..|s| - j];
    assert AllIn(s[..k], cut) by {
      forall i | 0 <= i < k ensures cut(s[..k][i]) { assert s[..k][i] == s[i]; }
    }
    assert AllIn(s[|s| - j..], cut) by {
      var u := s[|s| - j..];
      forall i | 0 <= i < |u| ensures cut(u[i]) { assert u[i] == s[|s| - j + i]; }
    }
    if r != [] {
      assert r[0] == s[k];
      assert r[|r| - 1] == s[|s| - j - 1];
    }
  }

  lemma StripKeepsStripped(s: string, cut: char -> bool)
    ensures EndsOutside(s, cut) ==> Strip(s, cut) == s
  {
    if EndsOutside(s, cut) && s != [] {
      assert Leading(s, cut) == 0;
      assert s[0..] == s;
      assert Trailing(s, cut) == 0;
    }
  }
}
