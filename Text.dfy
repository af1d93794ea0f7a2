/** Character classes and string helpers of JavaScript that the expense parser and
    the categoriser rely on: `\s`, `\d` and `.` in regular expressions,
    `String.prototype.trim`, `includes`, `startsWith` and `toLowerCase`. */
module Text {

  /** `\s` of a JavaScript regular expression: the WhiteSpace and LineTerminator
      code points of ECMAScript. `trim` removes exactly the same set. */
  predicate IsSpace(c: char) {
    || c == '\t' || c == '\n' || c == '\U{000B}' || c == '\U{000C}' || c == '\r'
    || c == ' ' || c == '\U{00A0}' || c == '\U{1680}'
    || ('\U{2000}' <= c <= '\U{200A}')
    || c == '\U{2028}' || c == '\U{2029}' || c == '\U{202F}' || c == '\U{205F}'
    || c == '\U{3000}' || c == '\U{FEFF}'
  }

  /** The characters `.` does not match (no `s` flag). */
  predicate IsLineTerminator(c: char) {
    c == '\n' || c == '\r' || c == '\U{2028}' || c == '\U{2029}'
  }

  /** `\d` */
  predicate IsDigit(c: char) {
    '0' <= c <= '9'
  }

  /** s[i..j] is all spaces */
  predicate SpacesIn(s: string, i: nat, j: nat)
    requires i <= j <= |s|
  {
    forall k | i <= k < j :: IsSpace(s[k])
  }

  /** s[i..j] is all digits */
  predicate DigitsIn(s: string, i: nat, j: nat)
    requires i <= j <= |s|
  {
    forall k | i <= k < j :: IsDigit(s[k])
  }

  /** s[i..j] holds no line terminator */
  predicate SingleLineIn(s: string, i: nat, j: nat)
    requires i <= j <= |s|
  {
    forall k | i <= k < j :: !IsLineTerminator(s[k])
  }

  predicate AllSpace(s: string) {
    SpacesIn(s, 0, |s|)
  }

  predicate AllDigits(s: string) {
    DigitsIn(s, 0, |s|)
  }

  predicate SingleLine(s: string) {
    SingleLineIn(s, 0, |s|)
  }

  /** Neither end of s is a space: what `trim` promises of its result. */
  predicate IsTrimmed(s: string) {
    |s| > 0 ==> !IsSpace(s[0]) && !IsSpace(s[|s| - 1])
  }

  function TrimStart(s: string): (r: string)
    ensures |r| <= |s| && r == s[|s| - |r|..]
    ensures SpacesIn(s, 0, |s| - |r|)
    ensures |r| > 0 ==> !IsSpace(r[0])
  {
    if |s| > 0 && IsSpace(s[0]) then TrimStart(s[1..]) else s
  }

  function TrimEnd(s: string): (r: string)
    ensures |r| <= |s| && r == s[..|r|]
    ensures SpacesIn(s, |r|, |s|)
    ensures |r| > 0 ==> !IsSpace(r[|r| - 1])
  {
    if |s| > 0 && IsSpace(s[|s| - 1]) then TrimEnd(s[..|s| - 1]) else s
  }

  /** `String.prototype.trim`: the middle of s left when every leading and every
      trailing space is removed. */
  function Trim(s: string): (r: string)
    ensures IsTrimmed(r)
    ensures exists i | 0 <= i <= |s| - |r| ::
              r == s[i..i + |r|] && SpacesIn(s, 0, i) && SpacesIn(s, i + |r|, |s|)
  {
    var t := TrimStart(s);
    var r := TrimEnd(t);
    var i := |s| - |t|;
    MiddleOf(s, t, r, i);
    assert |r| > 0 ==> r[0] == t[0];
    assert 0 <= i <= |s| - |r| && r == s[i..i + |r|] && SpacesIn(s, 0, i) && SpacesIn(s, i + |r|, |s|);
    r
  }

  /** A prefix r of a suffix t of s, with spaces after r in t, sits in s between
      the spaces cut from the front and the spaces cut from the back. */
  lemma MiddleOf(s: string, t: string, r: string, i: nat)
    requires i + |t| == |s| && t == s[i..]
    requires |r| <= |t| && r == t[..|r|] && SpacesIn(t, |r|, |t|)
    ensures i + |r| <= |s| && r == s[i..i + |r|]
    ensures SpacesIn(s, i + |r|, |s|)
  {
    forall k | i + |r| <= k < |s| ensures IsSpace(s[k]) {
      assert s[k] == t[k - i];
    }
  }

  /** Trimming a string that starts and ends with a non-space leaves it alone */
  lemma TrimmedUnchanged(s: string)
    requires IsTrimmed(s)
    ensures Trim(s) == s
  {
    assert TrimStart(s) == s;
    assert TrimEnd(s) == s;
  }

  /** needle occurs in haystack starting at index i */
  predicate OccursAt(haystack: string, needle: string, i: nat) {
    i + |needle| <= |haystack| && haystack[i..i + |needle|] == needle
  }

  /** `haystack.includes(needle)` */
  function Contains(haystack: string, needle: string): (r: bool)
    ensures r <==> exists i: nat :: OccursAt(haystack, needle, i)
    decreases |haystack|
  {
    if |needle| > |haystack| then false
    else if haystack[..|needle|] == needle then assert OccursAt(haystack, needle, 0); true
    else
      var rest := Contains(haystack[1..], needle);
      assert forall i: nat :: OccursAt(haystack, needle, i + 1) <==> OccursAt(haystack[1..], needle, i) by {
        forall i: nat ensures OccursAt(haystack, needle, i + 1) <==> OccursAt(haystack[1..], needle, i) {
          if i + 1 + |needle| <= |haystack| {
            var a, b := haystack[i + 1..i + 1 + |needle|], haystack[1..][i..i + |needle|];
            assert forall k | 0 <= k < |needle| :: a[k] == b[k];
          }
        }
      }
      assert forall i: nat :: OccursAt(haystack, needle, i) ==> i > 0 && OccursAt(haystack[1..], needle, i - 1);
      rest
  }

  /** `s.startsWith(prefix)`: s is prefix followed by something */
  function StartsWith(s: string, prefix: string): (r: bool)
    ensures r <==> exists rest :: s == prefix + rest
  {
    if |prefix| <= |s| && s[..|prefix|] == prefix then
      assert s == prefix + s[|prefix|..];
      true
    else false
  }

  /** The lower case of one character, as far as it decides whether an ASCII word occurs
      in the lower-cased text: ASCII capitals, KELVIN SIGN (to "k") and LATIN CAPITAL
      LETTER I WITH DOT ABOVE (to "i" and a combining dot) are the only characters whose
      lower case contains an ASCII letter; every other character is left as it is. */
  function LowerChar(c: char): (r: string)
    ensures |r| >= 1
  {
    if 'A' <= c <= 'Z' then [(c as int + 32) as char]
    else if c == '\U{212A}' then "k"
    else if c == '\U{0130}' then "i\U{0307}"
    else [c]
  }

  /** `s.toLowerCase()`, character by character */
  function Lower(s: string): (r: string)
    ensures |r| >= |s|
  {
    if s == [] then [] else LowerChar(s[0]) + Lower(s[1..])
  }

  /** An ASCII capital becomes its lower-case letter, 32 code points further on */
  lemma LowerAsciiCapital(c: char)
    requires 'A' <= c <= 'Z'
    ensures LowerChar(c) == [(c as int + 32) as char] && 'a' <= LowerChar(c)[0] <= 'z'
    ensures Lower([c]) == LowerChar(c)
  {
    assert [c][1..] == [];
  }

  /** A string without ASCII capitals, KELVIN SIGN and LATIN CAPITAL LETTER I WITH DOT
      ABOVE is its own lower case */
  lemma {:induction false} LowerUnchanged(s: string)
    requires forall k | 0 <= k < |s| :: !('A' <= s[k] <= 'Z') && s[k] != '\U{212A}' && s[k] != '\U{0130}'
    ensures Lower(s) == s
  {
    if s != [] {
      assert LowerChar(s[0]) == [s[0]];
      assert forall k | 0 <= k < |s| - 1 :: s[1..][k] == s[k + 1];
      LowerUnchanged(s[1..]);
      assert s == [s[0]] + s[1..];
    }
  }

  /** The lower case of one character is already lower case */
  lemma LowerCharSettled(c: char)
    ensures Lower(LowerChar(c)) == LowerChar(c)
  {
    var r := LowerChar(c);
    if c == '\U{0130}' {
      assert r == ['i'] + ['\U{0307}'];
      assert Lower(['\U{0307}']) == ['\U{0307}'];
      assert Lower(r) == LowerChar('i') + Lower(['\U{0307}']);
    } else {
      assert |r| == 1 && Lower(r) == LowerChar(r[0]) + Lower(r[1..]);
    }
  }

  lemma {:induction false} LowerAppend(a: string, b: string)
    ensures Lower(a + b) == Lower(a) + Lower(b)
  {
    if a != [] {
      LowerAppend(a[1..], b);
      assert (a + b)[1..] == a[1..] + b;
    } else {
      assert a + b == b;
    }
  }

  /** Lower case of a lower-cased string changes nothing */
  lemma {:induction false} LowerIdempotent(s: string)
    ensures Lower(Lower(s)) == Lower(s)
  {
    if s != [] {
      var c := LowerChar(s[0]);
      LowerIdempotent(s[1..]);
      LowerAppend(c, Lower(s[1..]));
      LowerCharSettled(s[0]);
    }
  }

  /** ASCII upper case of s (the other characters unchanged) */
  function AsciiUpper(s: string): (r: string)
    ensures |r| == |s|
    ensures forall k | 0 <= k < |s| :: 'a' <= s[k] <= 'z' ==> r[k] == (s[k] as int - 32) as char
    ensures forall k | 0 <= k < |s| :: !('a' <= s[k] <= 'z') ==> r[k] == s[k]
  {
    if s == [] then []
    else [if 'a' <= s[0] <= 'z' then (s[0] as int - 32) as char else s[0]] + AsciiUpper(s[1..])
  }

  /** Lower case forgets ASCII case: upper-casing the ASCII letters first changes nothing. */
  lemma {:induction false} LowerIgnoresAsciiCase(s: string)
    ensures Lower(AsciiUpper(s)) == Lower(s)
  {
    if s != [] {
      LowerIgnoresAsciiCase(s[1..]);
      assert AsciiUpper(s)[1..] == AsciiUpper(s[1..]);
      assert LowerChar(AsciiUpper(s)[0]) == LowerChar(s[0]);
    }
  }
}
