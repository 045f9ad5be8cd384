/**
 * String handling used by the scraper: `clean_data`'s strip of the characters
 * space, newline, colon and hyphen; ASCII lower-casing; substring tests; and a
 * decimal integer parser standing in for Python's `int(str)`.
 */
module Text {
  import opened Wrappers

  /** The characters `clean_data` strips from both ends: `" \n:-"`. */
  predicate IsStripChar(c: char)
  {
    c == ' ' || c == '\n' || c == ':' || c == '-'
  }

  /** Number of strip characters at the start of `s`. */
  function LeadLength(s: string): (n: nat)
    ensures n <= |s|
    ensures forall k :: 0 <= k < n ==> IsStripChar(s[k])
    ensures n < |s| ==> !IsStripChar(s[n])
  {
    if s != [] && IsStripChar(s[0]) then 1 + LeadLength(s[1..]) else 0
  }

  /** Number of strip characters at the end of `s`. */
  function TrailLength(s: string): (n: nat)
    ensures n <= |s|
    ensures forall k :: |s| - n <= k < |s| ==> IsStripChar(s[k])
    ensures n < |s| ==> !IsStripChar(s[|s| - 1 - n])
  {
    if s != [] && IsStripChar(s[|s| - 1]) then 1 + TrailLength(s[..|s| - 1]) else 0
  }

  /** Neither the first nor the last character is a strip character. */
  predicate Trimmed(r: string)
  {
    r == [] || (!IsStripChar(r[0]) && !IsStripChar(r[|r| - 1]))
  }

  /** `r` is the part of `s` at position `i`, and everything around it is a strip character. */
  predicate StrippedFrom(s: string, i: int, r: string)
  {
    OccursAt(s, r, i)
    && (forall k :: 0 <= k < i ==> IsStripChar(s[k]))
    && (forall k :: i + |r| <= k < |s| ==> IsStripChar(s[k]))
  }

  /** `s.strip(" \n:-")`. */
  function Strip(s: string): (r: string)
    ensures Trimmed(r)
    ensures exists i :: StrippedFrom(s, i, r)
  {
    var i := LeadLength(s);
    var t := s[i..];
    var r := t[..|t| - TrailLength(t)];
    assert r == s[i..i + |r|];
    assert forall k :: i + |r| <= k < |s| ==> IsStripChar(s[k]) by {
      forall k | i + |r| <= k < |s| ensures IsStripChar(s[k]) { assert s[k] == t[k - i]; }
    }
    assert StrippedFrom(s, i, r);
    r
  }

  /**
   * Strip is the only function with Strip's contract: any middle part of `s` that
   * is trimmed and is surrounded by strip characters only is what Strip returns.
   */
  lemma {:induction false} StripUnique(s: string, i: nat, r: string)
    requires StrippedFrom(s, i, r) && Trimmed(r)
    ensures Strip(s) == r
  {
    var j := i + |r|;
    assert s[i..j] == r;
    var n := LeadLength(s);
    if i == j {
      assert forall k :: 0 <= k < |s| ==> IsStripChar(s[k]) by {
        forall k | 0 <= k < |s| ensures IsStripChar(s[k]) {
          if k >= i { assert k >= j; }
        }
      }
      assert n == |s|;
    } else {
      assert s[i..j][0] == s[i];
      assert s[i..j][j - i - 1] == s[j - 1];
      assert n == i;
      var t := s[i..];
      var m := TrailLength(t);
      assert forall k :: j - i <= k < |t| ==> IsStripChar(t[k]) by {
        forall k | j - i <= k < |t| ensures IsStripChar(t[k]) { assert t[k] == s[k + i]; }
      }
      assert t[j - i - 1] == s[j - 1];
      assert m == |s| - j;
      assert t[..|t| - m] == s[i..j];
    }
  }

  /** `clean_data`: the stripped `.string` of a cell, or `""` when the cell has none. */
  function Clean(text: Option<string>): (r: string)
    ensures Trimmed(r)
    ensures text.None? ==> r == ""
    ensures text.Some? ==> |r| <= |text.value|
  {
    match text
    case None => ""
    case Some(s) => Strip(s)
  }

  /** Cleaning a cleaned text changes nothing. */
  lemma CleanIdempotent(text: Option<string>)
    ensures Clean(Some(Clean(text))) == Clean(text)
  {
    var r := Clean(text);
    assert r[0..|r|] == r;
    StripUnique(r, 0, r);
  }

  /** A cell reading `"  : Score- \n"` cleans to `"Score"`. */
  lemma CleanExample()
    ensures Clean(Some("  : Score- \n")) == "Score"
  {
    var s := "  : Score- \n";
    assert s[4..9] == "Score";
    StripUnique(s, 4, "Score");
  }

  /** ASCII lower-casing of one character. */
  function LowerChar(c: char): char
  {
    if 'A' <= c <= 'Z' then (c as int + 32) as char else c
  }

  /** `s.lower()`, restricted to ASCII letters. */
  function Lower(s: string): string
  {
    seq(|s|, k requires 0 <= k < |s| => LowerChar(s[k]))
  }

  /** `w` occurs in `s` starting at position `i`. */
  predicate OccursAt(s: string, w: string, i: int)
  {
    0 <= i && i + |w| <= |s| && s[i..i + |w|] == w
  }

  /** `s.startswith(w)`. */
  predicate StartsWith(s: string, w: string)
  {
    OccursAt(s, w, 0)
  }

  /** `w in s`. */
  predicate Contains(s: string, w: string)
  {
    exists i | 0 <= i <= |s| - |w| :: OccursAt(s, w, i)
  }

  predicate IsDigit(c: char)
  {
    '0' <= c <= '9'
  }

  /** A non-empty run of ASCII digits. */
  predicate IsDigits(s: string)
  {
    |s| > 0 && forall k :: 0 <= k < |s| ==> IsDigit(s[k])
  }

  function DigitValue(c: char): nat
    requires IsDigit(c)
  {
    c as int - '0' as int
  }

  /** The value of a string of decimal digits, most significant first. */
  function DigitsValue(s: string): nat
    requires forall k :: 0 <= k < |s| ==> IsDigit(s[k])
  {
    if s == [] then 0 else 10 * DigitsValue(s[..|s| - 1]) + DigitValue(s[|s| - 1])
  }

  /**
   * `int(s)` on the grammar that is modelled: an optional sign `+` or `-`, then one
   * or more ASCII digits; anything else is the `ValueError` case, here `None`.
   */
  function ParseInt(s: string): (r: Option<int>)
    ensures r.Some? <==> IsDigits(s) || (|s| > 0 && (s[0] == '+' || s[0] == '-') && IsDigits(s[1..]))
    ensures r.Some? && r.value < 0 ==> s[0] == '-'
  {
    if |s| > 0 && (s[0] == '+' || s[0] == '-') then
      if IsDigits(s[1..]) then
        var v: int := DigitsValue(s[1..]);
        Some(if s[0] == '-' then -v else v)
      else None
    else if IsDigits(s) then Some(DigitsValue(s))
    else None
  }

  /** The decimal digit for `d`. */
  function DigitChar(d: nat): char
    requires d < 10
  {
    ('0' as int + d) as char
  }

  /** Decimal notation of a natural number, without leading zeros. */
  function ShowNat(n: nat): (s: string)
    ensures IsDigits(s)
  {
    if n < 10 then [DigitChar(n)] else ShowNat(n / 10) + [DigitChar(n % 10)]
  }

  /** Decimal notation of an integer, with `-` for a negative one. */
  function Show(n: int): string
  {
    if n < 0 then "-" + ShowNat(-n) else ShowNat(n)
  }

  lemma {:induction false} DigitsValueShowNat(n: nat)
    ensures DigitsValue(ShowNat(n)) == n
  {
    var s := ShowNat(n);
    if n >= 10 {
      DigitsValueShowNat(n / 10);
      assert s[..|s| - 1] == ShowNat(n / 10);
    }
  }

  /** The parser reads back every integer that Show writes. */
  lemma ParseShow(n: int)
    ensures ParseInt(Show(n)) == Some(n)
  {
    var m := if n < 0 then -n else n;
    DigitsValueShowNat(m);
    if n < 0 {
      assert Show(n)[1..] == ShowNat(m);
    }
  }

  /** A cleaned text never starts with `-`, so it never parses as a negative number. */
  lemma CleanedNeverNegative(text: Option<string>)
    ensures ParseInt(Clean(text)).Some? ==> ParseInt(Clean(text)).value >= 0
  {
  }
}
