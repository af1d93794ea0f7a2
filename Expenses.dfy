/** The expense parser and categoriser of the bot's main file: the four ordered
    `expensePatterns`, `parseExpense`, `extractCategory`, the `!expense` message rule
    and the category default of the `/addexpense` command.

    Each regular expression is written out as a matcher over the input string that
    follows JavaScript's backtracking order: greedy quantifiers first take as much as
    they can and then give back one character at a time. Where giving back can never
    lead to another match, the comment says why and only the greedy choice is tried. */
module Expenses {
  import opened Text

  datatype Option<T> = None | Some(value: T)

  /** The two capture groups of a successful match, in group order */
  datatype Groups = Groups(first: string, second: string)

  /** What `parseExpense` returns when a pattern matches: `{amount, description}` */
  datatype Expense = Expense(amount: real, description: string)

  /** A sheet row `[date, amount, category, description]` */
  datatype Row = Row(date: string, amount: real, category: string, description: string)

  // ---------------------------------------------------------------------------
  // The pieces the patterns are made of

  /** End of the run of digits that starts at i */
  function DigitsEnd(s: string, i: nat): (j: nat)
    requires i <= |s|
    ensures i <= j <= |s| && DigitsIn(s, i, j)
    ensures j < |s| ==> !IsDigit(s[j])
    decreases |s| - i
  {
    if i < |s| && IsDigit(s[i]) then DigitsEnd(s, i + 1) else i
  }

  /** End of the run of `\s` characters that starts at i */
  function SpacesEnd(s: string, i: nat): (j: nat)
    requires i <= |s|
    ensures i <= j <= |s| && SpacesIn(s, i, j)
    ensures j < |s| ==> !IsSpace(s[j])
    decreases |s| - i
  {
    if i < |s| && IsSpace(s[i]) then SpacesEnd(s, i + 1) else i
  }

  /** A run of spaces from i ends no later than the maximal one */
  lemma SpacesWithin(s: string, i: nat, n: nat)
    requires i <= n <= |s| && SpacesIn(s, i, n)
    ensures n <= SpacesEnd(s, i)
  {
    var j := SpacesEnd(s, i);
    if j < n {
      assert false;
    }
  }

  /** End of the line that holds index i: how far `.+` can reach from i */
  function LineEnd(s: string, i: nat): (j: nat)
    requires i <= |s|
    ensures i <= j <= |s| && SingleLineIn(s, i, j)
    ensures j < |s| ==> IsLineTerminator(s[j])
    decreases |s| - i
  {
    if i < |s| && !IsLineTerminator(s[i]) then LineEnd(s, i + 1) else i
  }

  /** s[i..j] is text that `\d+(?:\.\d+)?` matches */
  predicate NumeralIn(s: string, i: nat, j: nat)
    requires i <= j <= |s|
  {
    || (i < j && DigitsIn(s, i, j))
    || (exists k | i < k < j - 1 :: s[k] == '.' && DigitsIn(s, i, k) && DigitsIn(s, k + 1, j))
  }

  predicate IsNumeral(t: string) {
    NumeralIn(t, 0, |t|)
  }

  lemma NumeralSlice(s: string, i: nat, j: nat)
    requires i <= j <= |s| && NumeralIn(s, i, j)
    ensures IsNumeral(s[i..j])
  {
    var t := s[i..j];
    if !(i < j && DigitsIn(s, i, j)) {
      var k :| i < k < j - 1 && s[k] == '.' && DigitsIn(s, i, k) && DigitsIn(s, k + 1, j);
      assert t[k - i] == '.' && DigitsIn(t, 0, k - i) && DigitsIn(t, k - i + 1, |t|);
    }
  }

  /** A numeral s[i..j] ends inside the digits that start at i, or inside the digits
      after the '.' that ends them */
  lemma NumeralEnds(s: string, i: nat, j: nat)
    requires i <= j <= |s|
    ensures NumeralIn(s, i, j) ==>
              var d := DigitsEnd(s, i);
              j <= d || (d + 1 < j && s[d] == '.' && j <= DigitsEnd(s, d + 1))
  {
    var d := DigitsEnd(s, i);
    if NumeralIn(s, i, j) {
      if i < j && DigitsIn(s, i, j) {
        if d < j {
          assert false;
        }
      } else {
        var k :| i < k < j - 1 && s[k] == '.' && DigitsIn(s, i, k) && DigitsIn(s, k + 1, j);
        if k < d {
          assert false;
        }
        if d < k {
          assert false;
        }
        var f := DigitsEnd(s, d + 1);
        if f < j {
          assert false;
        }
      }
    }
  }

  /** A numeral holds only digits and '.' */
  lemma NumeralChars(s: string, i: nat, j: nat)
    requires i <= j <= |s| && NumeralIn(s, i, j)
    ensures forall k | i <= k < j :: IsDigit(s[k]) || s[k] == '.'
  {
  }

  /** `\d+(?:\.\d+)?` at i, taken as far as it reaches: the longest numeral that starts
      at i. In every pattern the group is followed by `\s+` or by the end of the input,
      and a shorter number would leave a digit or a '.' there, so giving back digits never
      leads to another match. */
  function NumberEnd(s: string, i: nat): (e: Option<nat>)
    requires i <= |s|
    ensures e.None? <==> i == |s| || !IsDigit(s[i])
    ensures e.Some? ==> i < e.value <= |s| && NumeralIn(s, i, e.value)
    ensures e.Some? ==> forall j | e.value < j <= |s| :: !NumeralIn(s, i, j)
    ensures e.Some? && e.value < |s| ==> !IsDigit(s[e.value])
  {
    var d := DigitsEnd(s, i);
    if d == i then None
    else if d + 1 < |s| && s[d] == '.' && IsDigit(s[d + 1]) then
      var f := DigitsEnd(s, d + 1);
      assert s[d] == '.' && DigitsIn(s, i, d) && DigitsIn(s, d + 1, f);
      assert forall j | f < j <= |s| :: !NumeralIn(s, i, j) by {
        forall j | f < j <= |s| ensures !NumeralIn(s, i, j) {
          NumeralEnds(s, i, j);
        }
      }
      Some(f)
    else
      assert forall j | d < j <= |s| :: !NumeralIn(s, i, j) by {
        forall j | d < j <= |s| ensures !NumeralIn(s, i, j) {
          NumeralEnds(s, i, j);
        }
      }
      Some(d)
  }

  /** A numeral that some non-number character follows is exactly what `NumberEnd`
      takes */
  lemma NumberEndExact(s: string, i: nat, e: nat)
    requires i < e < |s| && NumeralIn(s, i, e) && !IsDigit(s[e]) && s[e] != '.'
    ensures NumberEnd(s, i) == Some(e)
  {
    NumeralChars(s, i, e);
    var n := NumberEnd(s, i).value;
    NumeralChars(s, i, n);
    if n > e {
      assert false;
    }
  }

  /** The value of a run of decimal digits */
  function DigitsValue(ds: string): nat
    requires AllDigits(ds)
  {
    if ds == [] then 0
    else 10 * DigitsValue(ds[..|ds| - 1]) + (ds[|ds| - 1] as int - '0' as int)
  }

  /** The value of the digits after a decimal point */
  function FractionValue(ds: string): (v: real)
    requires AllDigits(ds)
    ensures 0.0 <= v < 1.0
  {
    if ds == [] then 0.0
    else ((ds[0] as int - '0' as int) as real + FractionValue(ds[1..])) / 10.0
  }

  /** A zero appended to the decimals does not change their value */
  lemma {:induction false} FractionTrailingZero(ds: string)
    requires AllDigits(ds)
    ensures AllDigits(ds + "0") && FractionValue(ds + "0") == FractionValue(ds)
  {
    if ds == [] {
      assert FractionValue("0") == 0.0 by {
        assert "0"[1..] == [];
      }
    } else {
      FractionTrailingZero(ds[1..]);
      assert (ds + "0")[1..] == ds[1..] + "0";
    }
  }

  /** `parseFloat` of a captured number: digits before a '.' and the fraction after it */
  function NumeralValue(t: string): (v: real)
    requires IsNumeral(t)
    ensures v >= 0.0
    ensures AllDigits(t) ==> v == DigitsValue(t) as real
  {
    var d := DigitsEnd(t, 0);
    if d == |t| then DigitsValue(t) as real
    else
      assert t[d] == '.' && DigitsIn(t, d + 1, |t|) by {
        var k :| 0 < k < |t| - 1 && t[k] == '.' && DigitsIn(t, 0, k) && DigitsIn(t, k + 1, |t|);
        assert k == d;
      }
      DigitsValue(t[..d]) as real + FractionValue(t[d + 1..])
  }

  /** Whatever '.' a numeral holds, the digits before it are the whole part of the value
      and the digits after it add a fraction below one */
  lemma NumeralValueParts(t: string, d: nat)
    requires IsNumeral(t) && d < |t| && t[d] == '.'
    ensures 0 < d < |t| - 1 && AllDigits(t[..d]) && AllDigits(t[d + 1..])
    ensures NumeralValue(t) == DigitsValue(t[..d]) as real + FractionValue(t[d + 1..])
    ensures DigitsValue(t[..d]) as real <= NumeralValue(t) < DigitsValue(t[..d]) as real + 1.0
  {
    DotSplitsNumeral(t, d);
  }

  /** parseFloat ignores a zero appended after the decimals: "12.50" reads as "12.5" */
  lemma NumeralTrailingZero(t: string, d: nat)
    requires IsNumeral(t) && d < |t| && t[d] == '.'
    ensures IsNumeral(t + "0") && NumeralValue(t + "0") == NumeralValue(t)
  {
    NumeralValueParts(t, d);
    var u := t + "0";
    assert u[..d] == t[..d] && u[d + 1..] == t[d + 1..] + "0";
    FractionTrailingZero(t[d + 1..]);
    assert u[d] == '.' && DigitsIn(u, 0, d) && DigitsIn(u, d + 1, |u|);
    NumeralValueParts(u, d);
  }

  /** The '.' of a numeral ends its leading digits */
  lemma DotSplitsNumeral(t: string, d: nat)
    requires IsNumeral(t) && d < |t| && t[d] == '.'
    ensures d == DigitsEnd(t, 0) && 0 < d < |t| - 1
    ensures AllDigits(t[..d]) && AllDigits(t[d + 1..])
  {
    var e := DigitsEnd(t, 0);
    NumeralEnds(t, 0, |t|);
    if e != d {
      assert false;
    }
  }

  /** "25.99" is read as 25.99 */
  lemma DecimalExample(t: string)
    requires t == "25.99"
    ensures IsNumeral(t) && NumeralValue(t) == 25.99
  {
    assert t[2] == '.' && DigitsIn(t, 0, 2) && DigitsIn(t, 3, 5);
    NumeralValueParts(t, 2);
    assert t[..2] == "25" && t[3..] == "99";
    assert DigitsValue("25") == 25 by {
      assert "25"[..1] == "2" && "2"[..0] == [];
    }
    assert FractionValue("99") == 0.99 by {
      assert "99"[1..] == "9" && "9"[1..] == [];
    }
  }

  /** `\s+(.+)$` once `\s+` holds s[i..k]: `(.+)$` takes the rest of the input when that
      is one nonempty line; otherwise `\s+` gives back its last character. The result is
      where the `(.+)` group starts. */
  function RestAfterSpaces(s: string, i: nat, k: nat): (m: Option<nat>)
    requires i < k <= |s| && SpacesIn(s, i, k)
    ensures m.Some? ==> i < m.value < |s| && SpacesIn(s, i, m.value) && SingleLineIn(s, m.value, |s|)
    ensures m.Some? ==> forall n | m.value < n <= k && n < |s| :: !SingleLineIn(s, n, |s|)
    ensures m.None? ==> forall n | i < n <= k && n < |s| :: !SingleLineIn(s, n, |s|)
    decreases k
  {
    if k < |s| && LineEnd(s, k) == |s| then Some(k)
    else if k == i + 1 then None
    else
      var r := RestAfterSpaces(s, i, k - 1);
      assert k < |s| ==> !SingleLineIn(s, k, |s|) by {
        if k < |s| {
          var e := LineEnd(s, k);
          assert IsLineTerminator(s[e]);
        }
      }
      r
  }

  /** s[e..m] is one or more spaces and s[m..] is one nonempty line: a place where
      `\s+(.+)$` can hand over to its group */
  predicate RestSplit(s: string, e: nat, m: nat) {
    e < m < |s| && SpacesIn(s, e, m) && SingleLineIn(s, m, |s|)
  }

  /** No place after m where `\s+` from e could end leaves one line to the end */
  predicate LastRestSplit(s: string, e: nat, m: nat)
    requires e <= m
  {
    forall n {:trigger SpacesIn(s, e, n)} | m < n < |s| && SpacesIn(s, e, n) :: !SingleLineIn(s, n, |s|)
  }

  /** `\s+(.+)$` at i: where the `(.+)` group starts. None exactly when no split of s[i..]
      into spaces and one nonempty last line exists; otherwise the greedy `\s+` keeps
      the last such split. */
  function SpacesThenRest(s: string, i: nat): (m: Option<nat>)
    requires i <= |s|
    ensures m.Some? ==> RestSplit(s, i, m.value) && LastRestSplit(s, i, m.value)
    ensures m.None? <==> !exists n :: RestSplit(s, i, n)
  {
    var j := SpacesEnd(s, i);
    if j == i then None
    else
      assert forall n | i < n <= |s| && SpacesIn(s, i, n) :: n <= j by {
        forall n | i < n <= |s| && SpacesIn(s, i, n) ensures n <= j {
          SpacesWithin(s, i, n);
        }
      }
      var m := RestAfterSpaces(s, i, j);
      assert m.None? ==> forall n | RestSplit(s, i, n) :: false;
      assert m.Some? ==> RestSplit(s, i, m.value);
      m
  }

  // ---------------------------------------------------------------------------
  // Patterns 1 and 3

  /** s[i..] splits as `(\d+(?:\.\d+)?)\s+(.+)$` reads it: a numeral s[i..e], spaces, and
      one nonempty line s[m..] to the end */
  predicate NumberRestSplit(s: string, i: nat, e: nat, m: nat) {
    i < e <= |s| && NumeralIn(s, i, e) && RestSplit(s, e, m)
  }

  /** `(\d+(?:\.\d+)?)\s+(.+)$` at i: a match is such a split, with the last possible
      start for the second group */
  function NumberThenRest(s: string, i: nat): (r: Option<Groups>)
    requires i <= |s|
    ensures r.Some? ==> IsNumeral(r.value.first)
    ensures r.Some? ==> exists e: nat, m: nat ::
              && NumberRestSplit(s, i, e, m) && LastRestSplit(s, e, m)
              && r.value == Groups(s[i..e], s[m..])
  {
    match NumberEnd(s, i)
    case None => None
    case Some(e) =>
      match SpacesThenRest(s, e)
      case None => None
      case Some(m) =>
        NumeralSlice(s, i, e);
        assert NumberRestSplit(s, i, e, m);
        Some(Groups(s[i..e], s[m..]))
  }

  /** Whenever s[i..] splits so, `(\d+(?:\.\d+)?)\s+(.+)$` matches at i with that numeral */
  lemma NumberThenRestComplete(s: string, i: nat, e: nat, m: nat)
    requires NumberRestSplit(s, i, e, m)
    ensures NumberThenRest(s, i).Some? && NumberThenRest(s, i).value.first == s[i..e]
  {
    assert IsSpace(s[e]);
    NumberEndExact(s, i, e);
    assert SpacesThenRest(s, e).Some?;
  }

  /** `/^\$?(\d+(?:\.\d+)?)\s+(.+)$/i` ("$50 groceries"). `\$?` first takes a leading '$';
      when the rest fails after it, it gives the '$' back and the number is tried at 0.
      A match is a split of the input after an optional '$'. */
  function Pattern1(s: string): (r: Option<Groups>)
    ensures r.Some? ==> IsNumeral(r.value.first)
    ensures r.Some? ==> exists p: nat, e: nat, m: nat ::
              && NumberRestSplit(s, p, e, m) && LastRestSplit(s, e, m)
              && (p == 0 || (p == 1 && s[0] == '$'))
              && r.value == Groups(s[p..e], s[m..])
  {
    if |s| > 0 && s[0] == '$' then
      match NumberThenRest(s, 1)
      case Some(g) => Some(g)
      case None => NumberThenRest(s, 0)
    else NumberThenRest(s, 0)
  }

  /** Whenever the input splits so after an optional '$', the first pattern matches with
      that numeral */
  lemma Pattern1Complete(s: string, p: nat, e: nat, m: nat)
    requires NumberRestSplit(s, p, e, m) && (p == 0 || (p == 1 && s[0] == '$'))
    ensures Pattern1(s).Some? && Pattern1(s).value.first == s[p..e]
  {
    NumberThenRestComplete(s, p, e, m);
  }

  /** `/^(\d+(?:\.\d+)?)\s+(.+)$/i` ("45.50 taxi"): a match is a split of the whole input */
  function Pattern3(s: string): (r: Option<Groups>)
    ensures r.Some? ==> IsNumeral(r.value.first)
    ensures r.Some? ==> exists e: nat, m: nat ::
              && NumberRestSplit(s, 0, e, m) && LastRestSplit(s, e, m)
              && r.value == Groups(s[..e], s[m..])
  {
    NumberThenRest(s, 0)
  }

  /** Whenever the input splits so, the third pattern matches with that numeral */
  lemma Pattern3Complete(s: string, e: nat, m: nat)
    requires NumberRestSplit(s, 0, e, m)
    ensures Pattern3(s).Some? && Pattern3(s).value.first == s[..e]
  {
    NumberThenRestComplete(s, 0, e, m);
  }

  // ---------------------------------------------------------------------------
  // Pattern 2

  /** Letter c equals the lower-case letter l under the `i` flag: without the `u` flag
      only ASCII letters fold, so c is l or its ASCII capital */
  predicate SameIgnoringCase(c: char, l: char) {
    c == l || ('a' <= l <= 'z' && c as int == l as int - 32)
  }

  /** The literal lit (lower case) occurs at i, ignoring case */
  predicate MatchesAt(s: string, i: nat, lit: string) {
    i + |lit| <= |s| && forall k | 0 <= k < |lit| :: SameIgnoringCase(s[i + k], lit[k])
  }

  /** "on" and "for" start with different letters, whatever their case */
  lemma OnOrForFirst(s: string, j: nat)
    ensures MatchesAt(s, j, "on") ==> j < |s| && (s[j] == 'o' || s[j] == 'O')
    ensures MatchesAt(s, j, "for") ==> j < |s| && (s[j] == 'f' || s[j] == 'F')
  {
    if MatchesAt(s, j, "on") {
      assert SameIgnoringCase(s[j + 0], "on"[0]);
    }
    if MatchesAt(s, j, "for") {
      assert SameIgnoringCase(s[j + 0], "for"[0]);
    }
  }

  /** `(?:on|for)` at j: where it ends */
  function OnOrForEnd(s: string, j: nat): (k: Option<nat>)
    ensures k.Some? ==> k.value <= |s| && (k.value == j + 2 || k.value == j + 3)
  {
    if MatchesAt(s, j, "on") then Some(j + 2)
    else if MatchesAt(s, j, "for") then Some(j + 3)
    else None
  }

  /** `\s+(.+)` once `\s+` holds s[i..k]: `(.+)` takes the rest of the current line when
      that is nonempty; otherwise `\s+` gives back its last character. The result is
      where the group starts; it runs to the end of that line. */
  function LineAfterSpaces(s: string, i: nat, k: nat): (m: Option<nat>)
    requires i < k <= |s| && SpacesIn(s, i, k)
    ensures m.Some? ==> i < m.value < |s| && SpacesIn(s, i, m.value) && !IsLineTerminator(s[m.value])
    ensures m.Some? ==> forall n | m.value < n <= k && n < |s| :: IsLineTerminator(s[n])
    ensures m.None? ==> forall n | i < n <= k && n < |s| :: IsLineTerminator(s[n])
    decreases k
  {
    if k < |s| && !IsLineTerminator(s[k]) then Some(k)
    else if k == i + 1 then None
    else LineAfterSpaces(s, i, k - 1)
  }

  /** s[k..m] is one or more spaces and `.` matches s[m]: a place where `\s+(.+)` can
      hand over to its group */
  predicate LineSplit(s: string, k: nat, m: nat) {
    k < m < |s| && SpacesIn(s, k, m) && !IsLineTerminator(s[m])
  }

  /** No place after m where `\s+` from k could end is followed by a character `.` takes */
  predicate LastLineSplit(s: string, k: nat, m: nat)
    requires k <= m
  {
    forall n {:trigger SpacesIn(s, k, n)} | m < n < |s| && SpacesIn(s, k, n) :: IsLineTerminator(s[n])
  }

  /** `\s+(.+)` at i: where the group starts. None exactly when no split exists; otherwise
      the greedy `\s+` keeps the last one. */
  function SpacesThenLine(s: string, i: nat): (m: Option<nat>)
    requires i <= |s|
    ensures m.Some? ==> LineSplit(s, i, m.value) && LastLineSplit(s, i, m.value)
    ensures m.None? <==> !exists n :: LineSplit(s, i, n)
  {
    var j := SpacesEnd(s, i);
    if j == i then None
    else
      assert forall n | i < n <= |s| && SpacesIn(s, i, n) :: n <= j by {
        forall n | i < n <= |s| && SpacesIn(s, i, n) ensures n <= j {
          SpacesWithin(s, i, n);
        }
      }
      var m := LineAfterSpaces(s, i, j);
      assert m.None? ==> forall n | LineSplit(s, i, n) :: false;
      assert m.Some? ==> LineSplit(s, i, m.value);
      m
  }

  /** s[e..k] is `\s+(?:on|for)`: spaces up to j, then "on" or "for" in any ASCII case */
  predicate Connective(s: string, e: nat, j: nat, k: nat) {
    && e < j <= |s| && SpacesIn(s, e, j)
    && ((k == j + 2 && MatchesAt(s, j, "on")) || (k == j + 3 && MatchesAt(s, j, "for")))
  }

  /** s[i..] starts as `(\d+(?:\.\d+)?)\s+(?:on|for)\s+(.+)` reads it: a numeral s[i..e],
      the connective s[e..k], spaces, and a character `.` takes at m */
  predicate AmountOnSplit(s: string, i: nat, e: nat, j: nat, k: nat, m: nat) {
    i < e <= |s| && NumeralIn(s, i, e) && Connective(s, e, j, k) && LineSplit(s, k, m)
  }

  /** `(\d+(?:\.\d+)?)\s+(?:on|for)\s+(.+)` at i. Giving back part of the first `\s+`
      would leave a space where 'o' or 'f' is needed, so only the whole run is tried.
      A match is such a split, with the last possible start m for the group, which runs
      to the end of its line. */
  function AmountOnText(s: string, i: nat): (r: Option<Groups>)
    requires i <= |s|
    ensures r.Some? ==> IsNumeral(r.value.first) && |r.value.second| > 0 && SingleLine(r.value.second)
    ensures r.Some? ==> exists e: nat, j: nat, k: nat, m: nat ::
              && AmountOnSplit(s, i, e, j, k, m) && LastLineSplit(s, k, m)
              && r.value == Groups(s[i..e], s[m..LineEnd(s, m)])
  {
    match NumberEnd(s, i)
    case None => None
    case Some(e) =>
      var j := SpacesEnd(s, e);
      if j == e then None
      else
        match OnOrForEnd(s, j)
        case None => None
        case Some(k) =>
          match SpacesThenLine(s, k)
          case None => None
          case Some(m) =>
            NumeralSlice(s, i, e);
            assert AmountOnSplit(s, i, e, j, k, m);
            var line := s[m..LineEnd(s, m)];
            assert SingleLine(line) by {
              forall n | 0 <= n < |line| ensures !IsLineTerminator(line[n]) {
                assert line[n] == s[m + n];
              }
            }
            Some(Groups(s[i..e], line))
  }

  /** Whenever s[i..] starts so, `(\d+(?:\.\d+)?)\s+(?:on|for)\s+(.+)` matches at i with
      that numeral */
  lemma AmountOnTextComplete(s: string, i: nat, e: nat, j: nat, k: nat, m: nat)
    requires AmountOnSplit(s, i, e, j, k, m)
    ensures AmountOnText(s, i).Some? && AmountOnText(s, i).value.first == s[i..e]
  {
    assert IsSpace(s[e]);
    NumberEndExact(s, i, e);
    SpacesWithin(s, e, j);
    var j' := SpacesEnd(s, e);
    OnOrForFirst(s, j);
    if j < j' {
      assert false;
    }
    assert OnOrForEnd(s, j) == Some(k);
    assert SpacesThenLine(s, k).Some?;
  }

  /** `spent\s+\$?(\d+(?:\.\d+)?)\s+(?:on|for)\s+(.+)` tried at p. Giving back part of
      `\s+` would leave a space where '$' or a digit is needed; `\$?` takes a '$' first
      and gives it back when the rest fails. A match is "spent" in any ASCII case, spaces
      and at most one '$' up to a, then what `AmountOnText` reads from a. */
  function SpentAt(s: string, p: nat): (r: Option<Groups>)
    ensures r.Some? ==> MatchesAt(s, p, "spent")
    ensures r.Some? ==> IsNumeral(r.value.first) && |r.value.second| > 0 && SingleLine(r.value.second)
    ensures r.Some? ==> exists a: nat, e: nat, j: nat, k: nat, m: nat ::
              && p + 5 < a <= |s| && Separator(s, p + 5, a)
              && AmountOnSplit(s, a, e, j, k, m) && LastLineSplit(s, k, m)
              && r.value == Groups(s[a..e], s[m..LineEnd(s, m)])
  {
    if !MatchesAt(s, p, "spent") then None
    else
      var j := SpacesEnd(s, p + 5);
      if j == p + 5 then None
      else if j < |s| && s[j] == '$' then
        match AmountOnText(s, j + 1)
        case Some(g) =>
          assert Separator(s, p + 5, j + 1);
          Some(g)
        case None =>
          assert Separator(s, p + 5, j);
          AmountOnText(s, j)
      else
        assert Separator(s, p + 5, j);
        AmountOnText(s, j)
  }

  /** Whenever "spent", spaces, at most one '$' and what `AmountOnText` reads follow p,
      the pattern matches at p with that numeral */
  lemma SpentAtComplete(s: string, p: nat, a: nat, e: nat, j: nat, k: nat, m: nat)
    requires MatchesAt(s, p, "spent") && p + 5 < a <= |s| && Separator(s, p + 5, a)
    requires AmountOnSplit(s, a, e, j, k, m)
    ensures SpentAt(s, p).Some? && SpentAt(s, p).value.first == s[a..e]
  {
    AmountOnTextComplete(s, a, e, j, k, m);
    assert IsDigit(s[a]);
    SeparatorEnds(s, p + 5, a);
    SpentAtAmount(s, p, a);
  }

  /** When the spaces after "spent" end at a, or at a '$' just before a, and a match of
      `AmountOnText` starts at a, that is the match at p */
  lemma SpentAtAmount(s: string, p: nat, a: nat)
    requires MatchesAt(s, p, "spent") && p + 5 < a < |s| && IsDigit(s[a]) && AmountOnText(s, a).Some?
    requires p + 5 < SpacesEnd(s, p + 5)
    requires SpacesEnd(s, p + 5) == a || (SpacesEnd(s, p + 5) == a - 1 && s[a - 1] == '$')
    ensures SpentAt(s, p) == AmountOnText(s, a)
  {
  }

  /** Spaces and at most one '$' before a digit at a: the run of spaces ends at a, or
      just before a '$' at a - 1 */
  lemma SeparatorEnds(s: string, l: nat, a: nat)
    requires l < a < |s| && Separator(s, l, a) && IsDigit(s[a])
    ensures l < SpacesEnd(s, l)
    ensures SpacesEnd(s, l) == a || (SpacesEnd(s, l) == a - 1 && s[a - 1] == '$')
  {
    if SpacesIn(s, l, a) {
      SpacesWithin(s, l, a);
    } else {
      SpacesWithin(s, l, a - 1);
    }
  }

  /** The least q in [p, hi] with ok(q): the order in which an unanchored regular
      expression tries its start positions */
  function Leftmost(ok: nat -> bool, p: nat, hi: nat): (q: Option<nat>)
    ensures q.Some? ==> p <= q.value <= hi && ok(q.value)
    ensures q.Some? ==> forall q' | p <= q' < q.value :: !ok(q')
    ensures q.None? ==> forall q' | p <= q' <= hi :: !ok(q')
    decreases hi - p
  {
    if p > hi then None
    else if ok(p) then Some(p)
    else Leftmost(ok, p + 1, hi)
  }

  /** The greatest n in [lo, hi] with ok(n): the order in which a greedy quantifier
      gives back characters */
  function Rightmost(ok: nat -> bool, lo: nat, hi: nat): (n: Option<nat>)
    ensures n.Some? ==> lo <= n.value <= hi && ok(n.value)
    ensures n.Some? ==> forall n' | n.value < n' <= hi :: !ok(n')
    ensures n.None? ==> forall n' | lo <= n' <= hi :: !ok(n')
    decreases hi
  {
    if hi < lo then None
    else if ok(hi) then Some(hi)
    else if hi == 0 then None
    else Rightmost(ok, lo, hi - 1)
  }

  /** `/spent\s+\$?(\d+(?:\.\d+)?)\s+(?:on|for)\s+(.+)/i` ("spent $30 on lunch"): the match
      at the leftmost position where there is one, and none exactly when no position
      has one */
  function Pattern2(s: string): (r: Option<Groups>)
    ensures r.Some? ==> IsNumeral(r.value.first) && |r.value.second| > 0 && SingleLine(r.value.second)
    ensures r.Some? ==> exists q: nat :: r == SpentAt(s, q) && forall q': nat | q' < q :: SpentAt(s, q').None?
    ensures r.None? <==> forall q: nat :: SpentAt(s, q).None?
  {
    var ok := (q: nat) => SpentAt(s, q).Some?;
    assert forall q: nat :: ok(q) == SpentAt(s, q).Some?;
    match Leftmost(ok, 0, |s|)
    case None => None
    case Some(q) => SpentAt(s, q)
  }

  // ---------------------------------------------------------------------------
  // Pattern 4

  /** `(\d+(?:\.\d+)?)$` at i: the number must run to the end of the input */
  function AmountToEnd(s: string, i: nat): (a: Option<nat>)
    requires i <= |s|
    ensures a.Some? ==> a.value == i && NumeralIn(s, i, |s|)
    ensures a.None? ==> !NumeralIn(s, i, |s|)
  {
    match NumberEnd(s, i)
    case None => None
    case Some(e) =>
      if e == |s| then Some(i)
      else
        assert !NumeralIn(s, i, |s|) by {
          assert !IsDigit(s[e]);
          assert DigitsEnd(s, i) <= e;
        }
        None
  }

  /** `\s+\$?(\d+(?:\.\d+)?)$` at l: where the number starts. Giving back part of `\s+`
      would leave a space where '$' or a digit is needed, so only the whole run is tried;
      `\$?` takes a '$' first and gives it back when the rest fails. */
  function SpacesThenAmount(s: string, l: nat): (a: Option<nat>)
    requires l <= |s|
    ensures a.Some? ==> l < a.value < |s| && NumeralIn(s, a.value, |s|)
    ensures a.Some? ==> Separator(s, l, a.value)
  {
    var j := SpacesEnd(s, l);
    if j == l then None
    else if j < |s| && s[j] == '$' then
      match AmountToEnd(s, j + 1)
      case Some(a) => Some(a)
      case None => AmountToEnd(s, j)
    else AmountToEnd(s, j)
  }

  /** s[l..a] is one or more spaces followed by at most one '$' */
  predicate Separator(s: string, l: nat, a: nat)
    requires l <= a <= |s|
  {
    || (l < a && SpacesIn(s, l, a))
    || (l + 1 < a && SpacesIn(s, l, a - 1) && s[a - 1] == '$')
  }

  /** `/^(.+)\s+\$?(\d+(?:\.\d+)?)$/i` ("food $25.99"). The greedy `(.+)` first takes the
      whole first line and gives back one character at a time, so the description is
      the longest one that leaves spaces, an optional '$' and a number ending the input. */
  function Pattern4(s: string): (r: Option<Groups>)
    ensures r.Some? ==> IsNumeral(r.value.second)
  {
    match DescriptionEnd(s)
    case None => None
    case Some(n) =>
      var a := SpacesThenAmount(s, n).value;
      NumeralSlice(s, a, |s|);
      Some(Groups(s[..n], s[a..]))
  }

  /** Where the greedy `^(.+)` ends: it first takes the whole first line and gives back
      one character at a time until `\s+\$?(\d+(?:\.\d+)?)$` matches after it */
  function DescriptionEnd(s: string): (n: Option<nat>)
    ensures n.Some? ==> 1 <= n.value <= LineEnd(s, 0) && SpacesThenAmount(s, n.value).Some?
    ensures n.Some? ==> forall n' | n.value < n' <= LineEnd(s, 0) :: SpacesThenAmount(s, n').None?
    ensures n.None? ==> forall n' | 1 <= n' <= LineEnd(s, 0) :: SpacesThenAmount(s, n').None?
  {
    var l := LineEnd(s, 0);
    var fits := (n: nat) => n <= |s| && SpacesThenAmount(s, n).Some?;
    var r := Rightmost(fits, 1, l);
    assert forall n: nat | n <= l :: fits(n) == SpacesThenAmount(s, n).Some?;
    r
  }

  /** s splits as pattern 4 describes: a nonempty first-line description s[..n], then
      spaces and at most one '$' in s[n..a], then a number s[a..] ending the input */
  predicate Pattern4Split(s: string, n: nat, a: nat) {
    && 1 <= n < a < |s|
    && SingleLineIn(s, 0, n) && Separator(s, n, a) && NumeralIn(s, a, |s|)
  }

  /** What pattern 4 matches is such a split */
  lemma Pattern4Sound(s: string)
    requires Pattern4(s).Some?
    ensures exists n: nat, a: nat :: Pattern4Split(s, n, a) && Pattern4(s).value == Groups(s[..n], s[a..])
  {
    var n := DescriptionEnd(s).value;
    var a := SpacesThenAmount(s, n).value;
    assert SingleLineIn(s, 0, n) by {
      assert SingleLineIn(s, 0, LineEnd(s, 0));
    }
    assert Pattern4Split(s, n, a);
  }

  /** A description that stays on the first line ends no later than that line does */
  lemma WithinFirstLine(s: string, n: nat)
    requires n <= |s| && SingleLineIn(s, 0, n)
    ensures n <= LineEnd(s, 0)
  {
    var l := LineEnd(s, 0);
    if l < n {
      assert false;
    }
  }

  /** Spaces, an optional '$' and a number ending the input are what
      `\s+\$?(\d+(?:\.\d+)?)$` accepts */
  lemma SeparatorAccepted(s: string, n: nat, a: nat)
    requires n < a < |s| && Separator(s, n, a) && NumeralIn(s, a, |s|)
    ensures SpacesThenAmount(s, n).Some?
  {
    var j := SpacesEnd(s, n);
    assert IsDigit(s[a]);
    if SpacesIn(s, n, a) {
      assert j == a;
    } else {
      assert j == a - 1;
    }
  }

  /** Whenever such a split exists pattern 4 matches, and its description is at least as
      long as the split's: the greedy `(.+)` keeps the longest one */
  lemma Pattern4Complete(s: string, n: nat, a: nat)
    requires Pattern4Split(s, n, a)
    ensures Pattern4(s).Some? && |Pattern4(s).value.first| >= n
  {
    WithinFirstLine(s, n);
    SeparatorAccepted(s, n, a);
  }

  // ---------------------------------------------------------------------------
  // parseExpense

  /** The number of entries in `expensePatterns` */
  const PatternCount: nat := 4

  /** `content.match(expensePatterns[n])`, reduced to the two groups */
  function MatchPattern(n: nat, s: string): (r: Option<Groups>)
    requires n < PatternCount
    ensures r.Some? ==> IsNumeral(AmountGroup(n, r.value))
  {
    if n == 0 then Pattern1(s)
    else if n == 1 then Pattern2(s)
    else if n == 2 then Pattern3(s)
    else Pattern4(s)
  }

  /** The group that holds the amount: group 2 for the last pattern, group 1 otherwise */
  function AmountGroup(n: nat, g: Groups): string {
    if n == 3 then g.second else g.first
  }

  /** The group that holds the description */
  function DescriptionGroup(n: nat, g: Groups): string {
    if n == 3 then g.first else g.second
  }

  /** The expense `parseExpense` builds from the groups of pattern n */
  function ToExpense(n: nat, g: Groups): Expense
    requires IsNumeral(AmountGroup(n, g))
  {
    if n == 3 then Expense(NumeralValue(g.second), Trim(g.first))
    else Expense(NumeralValue(g.first), Trim(g.second))
  }

  /** The amount is read from the amount group and the description is the description
      group, trimmed */
  lemma ToExpenseGroups(n: nat, g: Groups)
    requires IsNumeral(AmountGroup(n, g))
    ensures ToExpense(n, g).amount == NumeralValue(AmountGroup(n, g))
    ensures ToExpense(n, g).description == Trim(DescriptionGroup(n, g))
  {
  }

  /** `content.match(expensePatterns[n])` for each index n of the array */
  function PatternMatches(s: string): nat -> Option<Groups> {
    (n: nat) => if n < PatternCount then MatchPattern(n, s) else None
  }

  /** The loop of `parseExpense` from pattern n on, over the table of match results:
      the index and the groups of the first pattern that matches */
  function FirstMatch(matchAt: nat -> Option<Groups>, n: nat): (r: Option<(nat, Groups)>)
    requires n <= PatternCount
    ensures r.Some? ==> n <= r.value.0 < PatternCount && matchAt(r.value.0) == Some(r.value.1)
    ensures r.Some? ==> forall j | n <= j < r.value.0 :: matchAt(j).None?
    decreases PatternCount - n
  {
    if n == PatternCount then None
    else
      match matchAt(n)
      case Some(g) => Some((n, g))
      case None => FirstMatch(matchAt, n + 1)
  }

  /** `parseExpense(content)`: the amount and trimmed description of the first pattern
      that matches, or None (`null`) */
  function ParseExpense(s: string): (r: Option<Expense>)
    ensures r.Some? ==> IsTrimmed(r.value.description) && r.value.amount >= 0.0
  {
    match FirstMatch(PatternMatches(s), 0)
    case None => None
    case Some((n, g)) =>
      assert MatchPattern(n, s) == Some(g);
      Some(ToExpense(n, g))
  }

  /** A pattern that does not match hands the input on to the next one */
  lemma FirstMatchSkips(matchAt: nat -> Option<Groups>, k: nat)
    requires k < PatternCount && matchAt(k).None?
    ensures FirstMatch(matchAt, k) == FirstMatch(matchAt, k + 1)
  {
  }

  /** A pattern that matches decides */
  lemma FirstMatchHere(matchAt: nat -> Option<Groups>, n: nat)
    requires n < PatternCount && matchAt(n).Some?
    ensures FirstMatch(matchAt, n) == Some((n, matchAt(n).value))
  {
  }

  lemma {:induction false} FirstMatchNone(matchAt: nat -> Option<Groups>, k: nat)
    requires k <= PatternCount
    ensures FirstMatch(matchAt, k).None? <==> forall j | k <= j < PatternCount :: matchAt(j).None?
    decreases PatternCount - k
  {
    if k < PatternCount {
      FirstMatchNone(matchAt, k + 1);
    }
  }

  /** Patterns k to n - 1 not matching hand the input on to pattern n */
  lemma {:induction false} FirstMatchReaches(matchAt: nat -> Option<Groups>, k: nat, n: nat)
    requires k <= n <= PatternCount
    requires forall j | k <= j < n :: matchAt(j).None?
    ensures FirstMatch(matchAt, k) == FirstMatch(matchAt, n)
    decreases n - k
  {
    if k < n {
      FirstMatchSkips(matchAt, k);
      FirstMatchReaches(matchAt, k + 1, n);
    }
  }

  /** `parseExpense` answers with the groups of the first pattern, in array order, that
      matches: amount from group 2 and description from group 1 for the last pattern,
      the other way round for the first three */
  lemma ParseTakesFirstMatch(s: string, n: nat)
    requires n < PatternCount && MatchPattern(n, s).Some?
    requires forall j | 0 <= j < n :: MatchPattern(j, s).None?
    ensures ParseExpense(s) == Some(Expense(NumeralValue(AmountGroup(n, MatchPattern(n, s).value)),
                                            Trim(DescriptionGroup(n, MatchPattern(n, s).value))))
  {
    var matchAt := PatternMatches(s);
    assert matchAt(n) == MatchPattern(n, s);
    assert forall j | 0 <= j < n :: matchAt(j) == MatchPattern(j, s);
    FirstMatchReaches(matchAt, 0, n);
    FirstMatchHere(matchAt, n);
  }

  /** Whenever the first pattern matches, it decides: the amount is its first group and
      the description its second, trimmed */
  lemma FirstPatternDecides(s: string, g: Groups)
    requires Pattern1(s) == Some(g)
    ensures IsNumeral(g.first)
    ensures ParseExpense(s) == Some(Expense(NumeralValue(g.first), Trim(g.second)))
  {
    assert MatchPattern(0, s) == Some(g);
    ParseTakesFirstMatch(s, 0);
  }

  /** `parseExpense` returns `null` exactly when none of the four patterns matches */
  lemma ParseNoneIffNoMatch(s: string)
    ensures ParseExpense(s).None? <==> forall n | 0 <= n < PatternCount :: MatchPattern(n, s).None?
  {
    FirstMatchNone(PatternMatches(s), 0);
  }

  /** Whatever pattern 3 matches, pattern 1 matches with the same groups */
  lemma Pattern3Subsumed(s: string)
    requires Pattern3(s).Some?
    ensures Pattern1(s) == Pattern3(s)
  {
  }

  /** So pattern 3 never decides what `parseExpense` returns */
  lemma Pattern3NeverDecides(s: string)
    ensures !(MatchPattern(2, s).Some? && MatchPattern(0, s).None?)
  {
    if Pattern3(s).Some? {
      Pattern3Subsumed(s);
    }
  }

  // ---------------------------------------------------------------------------
  // extractCategory

  /** The category names `extractCategory` looks for, in the order it tries them */
  const Categories: seq<string> :=
    ["food", "groceries", "transport", "rent", "utilities", "entertainment", "shopping", "travel", "health", "other"]

  /** Words that mark a meal, a ride and an amusement */
  const FoodWords: seq<string> := ["restaurant", "lunch", "dinner", "breakfast"]
  const TransportWords: seq<string> := ["uber", "taxi", "bus", "train"]
  const EntertainmentWords: seq<string> := ["movie", "game", "netflix"]

  /** The index of the first of words that occurs in text, or |words| when none does */
  function FirstOccurring(text: string, words: seq<string>): (i: nat)
    ensures i <= |words|
    ensures i < |words| ==> Contains(text, words[i])
    ensures forall j | 0 <= j < i :: !Contains(text, words[j])
  {
    if words == [] then 0
    else if Contains(text, words[0]) then 0
    else 1 + FirstOccurring(text, words[1..])
  }

  /** Some word of words occurs in text: a chain of `includes` joined by `||` */
  function ContainsAny(text: string, words: seq<string>): (r: bool)
    ensures r <==> exists j | 0 <= j < |words| :: Contains(text, words[j])
  {
    FirstOccurring(text, words) < |words|
  }

  /** `extractCategory(description)`: the first category whose name occurs in the lower-cased
      description; failing that "food", "transport" or "entertainment" by the first keyword
      group with a word in it; failing that "other" */
  function ExtractCategory(description: string): (c: string)
    ensures c in Categories
  {
    CategoryOfLowered(Lower(description))
  }

  /** The choice `extractCategory` makes once the description is lower-cased */
  function CategoryOfLowered(lower: string): (c: string)
    ensures c in Categories
  {
    var i := FirstOccurring(lower, Categories);
    if i < |Categories| then Categories[i]
    else if ContainsAny(lower, FoodWords) then "food"
    else if ContainsAny(lower, TransportWords) then "transport"
    else if ContainsAny(lower, EntertainmentWords) then "entertainment"
    else "other"
  }

  /** A category name that occurs decides, ahead of every keyword: the first one in list
      order is taken */
  lemma NameDecides(description: string, i: nat)
    requires i < |Categories| && Contains(Lower(description), Categories[i])
    requires forall j | 0 <= j < i :: !Contains(Lower(description), Categories[j])
    ensures ExtractCategory(description) == Categories[i]
  {
    var k := FirstOccurring(Lower(description), Categories);
    assert k == i by {
      if k < i {
        assert false;
      }
    }
  }

  /** Names beat keywords: when any category name occurs in the description, the category
      is one whose name occurs, whatever keywords the description also holds */
  lemma NamesBeatKeywords(description: string, j: nat)
    requires j < |Categories| && Contains(Lower(description), Categories[j])
    ensures Contains(Lower(description), ExtractCategory(description))
  {
    var k := FirstOccurring(Lower(description), Categories);
    assert k <= j;
  }

  /** When no category name occurs, the keyword groups are tried in the order food,
      transport, entertainment, and "other" is the fallback */
  lemma KeywordsDecide(description: string)
    requires forall j | 0 <= j < |Categories| :: !Contains(Lower(description), Categories[j])
    ensures ExtractCategory(description) ==
              if ContainsAny(Lower(description), FoodWords) then "food"
              else if ContainsAny(Lower(description), TransportWords) then "transport"
              else if ContainsAny(Lower(description), EntertainmentWords) then "entertainment"
              else "other"
  {
    var k := FirstOccurring(Lower(description), Categories);
    assert k == |Categories| by {
      if k < |Categories| {
        assert false;
      }
    }
  }

  /** Nothing known in the description gives "other" */
  lemma OtherWhenNothingOccurs(description: string)
    requires forall j | 0 <= j < |Categories| :: !Contains(Lower(description), Categories[j])
    requires forall w | w in FoodWords + TransportWords + EntertainmentWords :: !Contains(Lower(description), w)
    ensures ExtractCategory(description) == "other"
  {
    KeywordsDecide(description);
    var text := Lower(description);
    var all := FoodWords + TransportWords + EntertainmentWords;
    assert !ContainsAny(text, FoodWords) by {
      forall j | 0 <= j < |FoodWords| ensures !Contains(text, FoodWords[j]) {
        assert FoodWords[j] == all[j];
      }
    }
    assert !ContainsAny(text, TransportWords) by {
      forall j | 0 <= j < |TransportWords| ensures !Contains(text, TransportWords[j]) {
        assert TransportWords[j] == all[|FoodWords| + j];
      }
    }
    assert !ContainsAny(text, EntertainmentWords) by {
      forall j | 0 <= j < |EntertainmentWords| ensures !Contains(text, EntertainmentWords[j]) {
        assert EntertainmentWords[j] == all[|FoodWords| + |TransportWords| + j];
      }
    }
  }

  /** The category does not depend on the case of ASCII letters */
  lemma CategoryIgnoresAsciiCase(description: string)
    ensures ExtractCategory(AsciiUpper(description)) == ExtractCategory(description)
  {
    LowerIgnoresAsciiCase(description);
    SameLowerSameCategory(AsciiUpper(description), description);
  }

  /** The category is a function of the lower-cased description */
  lemma SameLowerSameCategory(a: string, b: string)
    requires Lower(a) == Lower(b)
    ensures ExtractCategory(a) == ExtractCategory(b)
  {
  }

  /** "Street food": lower-cased it holds "food", the first category name, so that is
      the category */
  lemma StreetFood(d: string)
    requires d == "Street food"
    ensures ExtractCategory(d) == "food"
  {
    StreetFoodLower(d);
    StreetFoodOccurs(Lower(d));
    NameDecides(d, 0);
  }

  lemma StreetFoodLower(d: string)
    requires d == "Street food"
    ensures Lower(d) == "s" + ("treet " + "food")
  {
    var head, rest, food := "S", "treet ", "food";
    assert d == head + (rest + food);
    LowerAsciiCapital('S');
    LowerUnchanged(rest);
    LowerUnchanged(food);
    LowerAppend(rest, food);
    LowerAppend(head, rest + food);
  }

  lemma StreetFoodOccurs(t: string)
    requires t == "s" + ("treet " + "food")
    ensures Contains(t, "food")
  {
    assert t[7..] == "food";
    assert OccursAt(t, "food", 7);
  }

  // ---------------------------------------------------------------------------
  // The `!expense` message rule and the `/addexpense` command

  /** The prefix that marks an expense in a channel message */
  const CommandPrefix: string := "!expense"

  /** The text handed to `parseExpense` for a message with content, or None when the
      message is neither a direct message nor starts with the prefix. A message that
      starts with the prefix loses it and is trimmed, even when it is a direct message. */
  function ExpenseText(isDirect: bool, content: string): (t: Option<string>)
    ensures t.None? <==> !isDirect && !StartsWith(content, CommandPrefix)
    ensures t.Some? && !StartsWith(content, CommandPrefix) ==> t.value == content
    ensures StartsWith(content, CommandPrefix) ==>
              exists rest :: content == CommandPrefix + rest && t == Some(Trim(rest))
  {
    if StartsWith(content, CommandPrefix) then
      assert content == CommandPrefix + content[|CommandPrefix|..];
      Some(Trim(content[|CommandPrefix|..]))
    else if isDirect then Some(content)
    else None
  }

  /** Whatever follows the prefix is trimmed and parsed, wherever the message was sent */
  lemma CommandTextIsTrimmedRest(isDirect: bool, rest: string)
    ensures ExpenseText(isDirect, CommandPrefix + rest) == Some(Trim(rest))
  {
    var content := CommandPrefix + rest;
    assert StartsWith(content, CommandPrefix) by {
      assert content[..|CommandPrefix|] == CommandPrefix;
    }
    assert content[|CommandPrefix|..] == rest;
  }

  /** The row `addExpenseToSheet` appends for a parsed expense: `[date, amount, category,
      description]`, the category taken from the description. The date is a parameter. */
  function ExpenseRow(date: string, e: Expense): (row: Row)
    ensures row.category in Categories
    ensures row.category == ExtractCategory(row.description)
    ensures row.date == date && row.amount == e.amount && row.description == e.description
  {
    Row(date, e.amount, ExtractCategory(e.description), e.description)
  }

  /** How the bot answers a message */
  datatype Outcome =
    | Ignored            // from a bot, or neither a direct message nor a command
    | NotUnderstood      // no pattern matched: the reply lists the accepted formats
    | Recorded(row: Row) // the row appended to the sheet

  /** The message handler: a message from a bot is ignored; otherwise the text selected
      by `ExpenseText` is parsed and, when that succeeds, recorded as a row */
  function HandleMessage(fromBot: bool, isDirect: bool, content: string, date: string): (o: Outcome)
    ensures fromBot ==> o.Ignored?
    ensures o.Ignored? <==> fromBot || ExpenseText(isDirect, content).None?
    ensures o.NotUnderstood? <==>
              !fromBot && ExpenseText(isDirect, content).Some? && ParseExpense(ExpenseText(isDirect, content).value).None?
    ensures o.Recorded? ==>
              && o.row.category in Categories && o.row.date == date
              && IsTrimmed(o.row.description) && o.row.amount >= 0.0
    ensures o.Recorded? ==>
              && ExpenseText(isDirect, content).Some? && ParseExpense(ExpenseText(isDirect, content).value).Some?
              && o.row == ExpenseRow(date, ParseExpense(ExpenseText(isDirect, content).value).value)
  {
    if fromBot then Ignored
    else
      match ExpenseText(isDirect, content)
      case None => Ignored
      case Some(text) =>
        match ParseExpense(text)
        case None => NotUnderstood
        case Some(e) => Recorded(ExpenseRow(date, e))
  }

  /** The values the `category` option of `/addexpense` offers */
  const CategoryChoices: seq<string> :=
    ["food", "transport", "entertainment", "shopping", "utilities", "health", "travel", "other"]

  /** The category `/addexpense` records: the one given, unless it is missing or empty
      (both falsy), in which case it is taken from the description */
  function ResolveCategory(given: Option<string>, description: string): (c: string)
    ensures given.Some? && given.value != "" ==> c == given.value
    ensures given.None? || given.value == "" ==> c == ExtractCategory(description)
  {
    if given.Some? && given.value != "" then given.value else ExtractCategory(description)
  }

  /** The row `/addexpense` appends: `[date, amount, category, description]` with the
      amount and description as given and the category resolved */
  function AddExpenseRow(date: string, amount: real, given: Option<string>, description: string): (row: Row)
    ensures row.date == date && row.amount == amount && row.description == description
    ensures given.Some? && given.value != "" ==> row.category == given.value
    ensures given.None? || given.value == "" ==> row.category == ExtractCategory(description)
  {
    Row(date, amount, ResolveCategory(given, description), description)
  }

  /** Without a category the command writes the row a message with that expense writes */
  lemma AddExpenseLikeMessage(date: string, amount: real, description: string)
    ensures AddExpenseRow(date, amount, None, description) == ExpenseRow(date, Expense(amount, description))
    ensures AddExpenseRow(date, amount, Some(""), description) == ExpenseRow(date, Expense(amount, description))
  {
  }

  /** A category picked from the offered choices, or none at all, is one of the
      categories the summary knows */
  lemma ResolvedCategoryKnown(given: Option<string>, description: string)
    requires given.None? || given.value in CategoryChoices
    ensures ResolveCategory(given, description) in Categories
  {
  }

  // ---------------------------------------------------------------------------
  // A worked example: "$50 groceries 20" fits both the first and the last pattern,
  // and the first one in array order decides

  lemma DollarExampleNumber(s: string)
    requires s == "$50 groceries 20"
    ensures NumberEnd(s, 1) == Some(3)
  {
    assert DigitsEnd(s, 3) == 3;
    assert DigitsEnd(s, 2) == 3;
    assert DigitsEnd(s, 1) == 3;
  }

  lemma DollarExampleRest(s: string)
    requires s == "$50 groceries 20"
    ensures SpacesThenRest(s, 3) == Some(4)
  {
    OneSpace(s, 3);
    assert SingleLineIn(s, 4, |s|);
    LineToEnd(s, 4);
  }

  lemma DollarExampleMatch(s: string)
    requires s == "$50 groceries 20"
    ensures Pattern1(s) == Some(Groups("50", "groceries 20"))
  {
    DollarExampleNumber(s);
    DollarExampleRest(s);
    assert s[1..3] == "50";
    assert s[4..] == "groceries 20";
  }

  lemma DollarExampleValues(amount: string, description: string)
    requires amount == "50" && description == "groceries 20"
    ensures IsNumeral(amount) && NumeralValue(amount) == 50.0
    ensures Trim(description) == description
  {
    DollarExampleAmount(amount);
    assert !IsSpace(description[0]) && !IsSpace(description[|description| - 1]);
    TrimmedUnchanged(description);
  }

  lemma DollarExampleAmount(amount: string)
    requires amount == "50"
    ensures IsNumeral(amount) && NumeralValue(amount) == 50.0
  {
    assert AllDigits(amount);
    assert DigitsValue(amount) == 50 by {
      assert amount[..1] == "5" && "5"[..0] == [];
    }
  }

  /** `parseExpense("$50 groceries 20")` is 50 for "groceries 20" */
  lemma DollarExampleParse(s: string)
    requires s == "$50 groceries 20"
    ensures ParseExpense(s) == Some(Expense(50.0, "groceries 20"))
  {
    DollarExampleMatch(s);
    DollarExampleValues("50", "groceries 20");
    FirstPatternDecides(s, Groups("50", "groceries 20"));
  }

  lemma SpentExampleNumber(s: string)
    requires s == "spent 5 on lunch today"
    ensures NumberEnd(s, 6) == Some(7)
    ensures SpacesEnd(s, 7) == 8
  {
    assert DigitsEnd(s, 7) == 7;
    assert DigitsEnd(s, 6) == 7;
    OneSpace(s, 7);
  }

  lemma SpentExampleConnective(s: string)
    requires s == "spent 5 on lunch today"
    ensures OnOrForEnd(s, 8) == Some(10)
  {
    assert MatchesAt(s, 8, "on");
  }

  lemma SpentExampleLine(s: string)
    requires s == "spent 5 on lunch today"
    ensures SpacesThenLine(s, 10) == Some(11)
    ensures LineEnd(s, 11) == 22
  {
    OneSpace(s, 10);
    assert SingleLineIn(s, 11, |s|);
    LineToEnd(s, 11);
  }

  /** A single space followed by something else is a run of length one */
  lemma OneSpace(s: string, i: nat)
    requires i + 1 < |s| && IsSpace(s[i]) && !IsSpace(s[i + 1])
    ensures SpacesEnd(s, i) == i + 1
  {
    assert SpacesEnd(s, i + 1) == i + 1;
  }

  /** Without a line terminator, the line runs to the end */
  lemma LineToEnd(s: string, i: nat)
    requires i <= |s| && SingleLineIn(s, i, |s|)
    ensures LineEnd(s, i) == |s|
  {
  }

  lemma SpentExampleAmount(s: string)
    requires s == "spent 5 on lunch today"
    ensures AmountOnText(s, 6) == Some(Groups("5", "lunch today"))
  {
    SpentExampleNumber(s);
    SpentExampleConnective(s);
    SpentExampleLine(s);
    assert s[6..7] == "5" && s[11..22] == "lunch today";
  }

  lemma SpentExampleAt(s: string)
    requires s == "spent 5 on lunch today"
    ensures SpentAt(s, 0) == Some(Groups("5", "lunch today"))
  {
    assert MatchesAt(s, 0, "spent");
    OneSpace(s, 5);
    assert s[6] != '$';
    SpentExampleAmount(s);
  }

  /** "spent 5 on lunch today" is read by the second pattern as 5 for "lunch today": the
      group runs to the end of the line */
  lemma SpentExampleMatch(s: string)
    requires s == "spent 5 on lunch today"
    ensures Pattern2(s) == Some(Groups("5", "lunch today"))
  {
    SpentExampleAt(s);
    assert Leftmost((q: nat) => SpentAt(s, q).Some?, 0, |s|) == Some(0);
  }
}
