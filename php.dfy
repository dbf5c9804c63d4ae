/** The few PHP built-ins and conventions the importer relies on, stated exactly. */
module Php {

  datatype Option<+T> = None | Some(value: T)

  /** A row: column name to text, whether read from XML or from the database. */
  type Row = map<string, string>

  /** `$row[$k]` on a row read from XML: an absent column reads as the empty string
      (PHP yields null with a notice, and null converts to ''). */
  function Get(row: map<string, string>, k: string): string
  {
    if k in row then row[k] else ""
  }

  /** PHP `empty()` on a string: true for '' and for '0'. It is also what a string
      is "falsy" on in a condition such as `$categoryname ? … : …`. */
  predicate Empty(s: string)
  {
    s == "" || s == "0"
  }

  predicate StartsWith(s: string, prefix: string)
  {
    |prefix| <= |s| && s[..|prefix|] == prefix
  }

  /** `explode($sep, $s)` for a one-character separator: the pieces between separators,
      including empty ones; `explode(',', '')` is `['']`. */
  function Explode(sep: char, s: string): (parts: seq<string>)
    ensures |parts| >= 1
    ensures forall i :: 0 <= i < |parts| ==> sep !in parts[i]
    ensures |parts| - 1 == CountOf(sep, s)
  {
    if |s| == 0 then [""]
    else
      var rest := Explode(sep, s[1..]);
      if s[0] == sep then [""] + rest
      else [[s[0]] + rest[0]] + rest[1..]
  }

  /** Number of occurrences of `c` in `s`. */
  function CountOf(c: char, s: string): nat
  {
    if |s| == 0 then 0 else (if s[0] == c then 1 else 0) + CountOf(c, s[1..])
  }

  /** `implode($sep, $parts)`: the inverse of `Explode`. */
  function Implode(sep: char, parts: seq<string>): string
    requires |parts| >= 1
  {
    if |parts| == 1 then parts[0] else parts[0] + [sep] + Implode(sep, parts[1..])
  }

  /** Joining the pieces back with the separator gives the original string. */
  lemma {:induction false} ImplodeExplode(sep: char, s: string)
    ensures Implode(sep, Explode(sep, s)) == s
  {
    if |s| > 0 {
      ImplodeExplode(sep, s[1..]);
      var rest := Explode(sep, s[1..]);
      if s[0] == sep {
        assert Explode(sep, s) == [""] + rest;
        assert ([""] + rest)[1..] == rest;
      } else {
        var first := [s[0]] + rest[0];
        assert Explode(sep, s) == [first] + rest[1..];
        if |rest| == 1 {
          assert Implode(sep, rest) == rest[0];
        } else {
          assert ([first] + rest[1..])[1..] == rest[1..];
          assert Implode(sep, rest) == rest[0] + [sep] + Implode(sep, rest[1..]);
        }
      }
    }
  }

  /** `str_replace($pat, '', $s)`: every occurrence of `pat`, scanned from the left
      without overlap, is removed. */
  function RemoveAll(pat: string, s: string): (r: string)
    requires pat != ""
    ensures |r| <= |s|
    decreases |s|
  {
    if |s| == 0 then ""
    else if StartsWith(s, pat) then RemoveAll(pat, s[|pat|..])
    else [s[0]] + RemoveAll(pat, s[1..])
  }

  /** `pat` occurs in `s` starting at position `i`. */
  predicate OccursAt(s: string, pat: string, i: nat)
  {
    i + |pat| <= |s| && s[i..i + |pat|] == pat
  }

  /** A string in which `pat` does not occur is left as it is. */
  lemma {:induction false} RemoveAllAbsent(pat: string, s: string)
    requires pat != ""
    requires forall i: nat :: !OccursAt(s, pat, i)
    ensures RemoveAll(pat, s) == s
    decreases |s|
  {
    if |s| > 0 {
      assert !StartsWith(s, pat) by {
        assert !OccursAt(s, pat, 0);
      }
      forall i: nat
        ensures !OccursAt(s[1..], pat, i)
      {
        assert !OccursAt(s, pat, i + 1);
        if i + |pat| <= |s[1..]| {
          assert s[1..][i..i + |pat|] == s[i + 1..i + 1 + |pat|];
        }
      }
      RemoveAllAbsent(pat, s[1..]);
    }
  }

  /** A path that starts with `pat`, and has no other occurrence of it, loses exactly that
      leading occurrence: `str_replace('/cat', '', '/cat/sub/')` is `'/sub/'`. */
  lemma RemoveAllLeading(pat: string, t: string)
    requires pat != ""
    requires forall i: nat :: !OccursAt(t, pat, i)
    ensures RemoveAll(pat, pat + t) == t
  {
    assert StartsWith(pat + t, pat) by {
      assert (pat + t)[..|pat|] == pat;
    }
    assert (pat + t)[|pat|..] == t;
    RemoveAllAbsent(pat, t);
  }

  /** Decimal text of an integer, as PHP prints an `int` (the form in which a stored
      id is written into a string column or compared with a string): a minus sign for a
      negative number, then the digits of its magnitude without leading zeros. */
  function IdText(n: int): (s: string)
    ensures |s| > 0
    ensures n < 0 <==> s[0] == '-'
    ensures n >= 0 ==> s == NatText(n)
    ensures n < 0 ==> s[1..] == NatText(-n)
  {
    if n < 0 then "-" + NatText(-n) else NatText(n)
  }

  /** The digits of a natural number, most significant first, without leading zeros. */
  function NatText(n: nat): (s: string)
    ensures |s| > 0
    ensures forall i :: 0 <= i < |s| ==> '0' <= s[i] <= '9'
    ensures n > 0 ==> s[0] != '0'
  {
    if n < 10 then [Digit(n)] else NatText(n / 10) + [Digit(n % 10)]
  }

  function Digit(d: nat): (c: char)
    requires d < 10
    ensures '0' <= c <= '9'
    ensures c as int - '0' as int == d
  {
    ('0' as int + d) as char
  }

  /** The number a string of decimal digits denotes. */
  function DecimalValue(s: string): nat
    requires forall i :: 0 <= i < |s| ==> '0' <= s[i] <= '9'
  {
    if |s| == 0 then 0
    else DecimalValue(s[..|s| - 1]) * 10 + (s[|s| - 1] as int - '0' as int)
  }

  /** Reading the digits back gives the number. */
  lemma {:induction false} NatTextValue(n: nat)
    ensures DecimalValue(NatText(n)) == n
    decreases n
  {
    if n >= 10 {
      NatTextValue(n / 10);
      var s := NatText(n);
      assert s[..|s| - 1] == NatText(n / 10);
    }
  }

  /** Two natural numbers have the same digits only when they are equal. */
  lemma NatTextInjective(a: nat, b: nat)
    requires NatText(a) == NatText(b)
    ensures a == b
  {
    NatTextValue(a);
    NatTextValue(b);
  }

  /** Two integers print alike only when they are equal, so comparing id texts compares ids. */
  lemma IdTextInjective(a: int, b: int)
    requires IdText(a) == IdText(b)
    ensures a == b
  {
    if a < 0 && b < 0 {
      NatTextInjective(-a, -b);
    } else if a >= 0 && b >= 0 {
      NatTextInjective(a, b);
    }
  }
}
