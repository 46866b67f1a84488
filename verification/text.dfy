/** String operations the dispatcher borrows from Python: `str.split`, `int()`,
    `str()` of an integer, and substring search. Strings are `seq<char>`. */
module Text {
  import opened Wrappers

  // ---------------------------------------------------------------------------
  // Splitting on a separator character

  /** Joins the pieces with `sep` between consecutive pieces (Python's `sep.join`). */
  function Join(parts: seq<string>, sep: char): string
    requires |parts| >= 1
    decreases |parts|
  {
    if |parts| == 1 then parts[0] else parts[0] + [sep] + Join(parts[1..], sep)
  }

  /** Python's `s.split(sep)` for a one-character separator: always at least one
      piece, no piece contains the separator, and joining the pieces gives `s` back. */
  function Split(s: string, sep: char): (r: seq<string>)
    ensures |r| >= 1
    ensures forall i :: 0 <= i < |r| ==> sep !in r[i]
    ensures Join(r, sep) == s
    ensures sep in s <==> |r| >= 2
    decreases |s|
  {
    if |s| == 0 then [""]
    else
      var rest := Split(s[1..], sep);
      if s[0] == sep then
        assert [sep] + Join(rest, sep) == s;
        [""] + rest
      else
        var r := [[s[0]] + rest[0]] + rest[1..];
        assert Join(r, sep) == [s[0]] + Join(rest, sep) by {
          if |rest| > 1 {
            assert r[1..] == rest[1..];
          }
        }
        r
  }

  lemma JoinCons(a: string, parts: seq<string>, sep: char)
    requires |parts| >= 1
    ensures Join([a] + parts, sep) == a + [sep] + Join(parts, sep)
  {
  }

  /** The first two pieces of a join, and what follows them. */
  lemma JoinFirstTwo(parts: seq<string>, sep: char)
    requires |parts| >= 2
    ensures |parts| == 2 ==> Join(parts, sep) == parts[0] + [sep] + parts[1]
    ensures |parts| > 2 ==> Join(parts, sep) == parts[0] + [sep] + (parts[1] + ([sep] + Join(parts[2..], sep)))
  {
    var tail := parts[1..];
    assert Join(parts, sep) == parts[0] + [sep] + Join(tail, sep);
    if |tail| > 1 {
      assert tail[1..] == parts[2..];
      assert Join(tail, sep) == parts[1] + [sep] + Join(parts[2..], sep);
      assert parts[1] + [sep] + Join(parts[2..], sep) == parts[1] + ([sep] + Join(parts[2..], sep));
    }
  }

  /** Splitting is determined by the pieces: any separator-free pieces split back
      out of their join. */
  lemma {:induction false} SplitJoin(parts: seq<string>, sep: char)
    requires |parts| >= 1
    requires forall i :: 0 <= i < |parts| ==> sep !in parts[i]
    ensures Split(Join(parts, sep), sep) == parts
    decreases |parts|, |parts[0]|
  {
    if |parts[0]| > 0 {
      var tail := [parts[0][1..]] + parts[1..];
      assert Join(parts, sep) == [parts[0][0]] + Join(tail, sep) by {
        if |parts| > 1 {
          assert tail[1..] == parts[1..];
        }
      }
      SplitJoin(tail, sep);
      assert Split(Join(parts, sep), sep) == [[parts[0][0]] + tail[0]] + tail[1..];
      assert [parts[0][0]] + tail[0] == parts[0];
    } else if |parts| == 1 {
    } else {
      SplitJoin(parts[1..], sep);
      assert Join(parts, sep) == [sep] + Join(parts[1..], sep);
      assert Join(parts, sep)[1..] == Join(parts[1..], sep);
    }
  }

  // ---------------------------------------------------------------------------
  // Decimal integers

  predicate IsDigit(c: char) { '0' <= c <= '9' }

  predicate AllDigits(s: string) { forall i :: 0 <= i < |s| ==> IsDigit(s[i]) }

  function DigitValue(c: char): nat
    requires IsDigit(c)
  {
    (c as int - '0' as int) as nat
  }

  function DigitChar(d: nat): (c: char)
    requires d < 10
    ensures IsDigit(c) && DigitValue(c) == d
  {
    ('0' as int + d) as char
  }

  /** The value of a string of decimal digits, most significant first. */
  function DigitsValue(s: string): nat
    requires AllDigits(s)
    decreases |s|
  {
    if |s| == 0 then 0 else 10 * DigitsValue(s[..|s| - 1]) + DigitValue(s[|s| - 1])
  }

  /** Python's `int(s)` on the forms the model accepts: an optional `+` or `-`
      followed by one or more ASCII digits. Anything else raises `ValueError`,
      modelled as `None`. */
  function ParseInt(s: string): (r: Option<int>)
    ensures r.Some? <==> (|s| > 0 && (if s[0] == '+' || s[0] == '-' then |s| > 1 && AllDigits(s[1..]) else AllDigits(s)))
  {
    if |s| > 0 && (s[0] == '+' || s[0] == '-') then
      var digits := s[1..];
      if |digits| > 0 && AllDigits(digits) then
        var magnitude: int := DigitsValue(digits);
        Some(if s[0] == '-' then -magnitude else magnitude)
      else None
    else if |s| > 0 && AllDigits(s) then Some(DigitsValue(s))
    else None
  }

  /** Python's `str(n)` for a natural number: shortest decimal rendering. */
  function NatToString(n: nat): (r: string)
    ensures |r| >= 1 && AllDigits(r)
    ensures |r| > 1 ==> r[0] != '0'
    ensures n >= 10 <==> |r| >= 2
    decreases n
  {
    if n < 10 then [DigitChar(n)] else NatToString(n / 10) + [DigitChar(n % 10)]
  }

  /** Python's `str(n)` for an integer: a `-` sign for negatives, no leading zeros. */
  function IntToString(n: int): (r: string)
    ensures |r| >= 1
    ensures n >= 0 <==> IsDigit(r[0])
    ensures n < 0 ==> r[0] == '-'
  {
    if n < 0 then "-" + NatToString(-n) else NatToString(n)
  }

  lemma {:induction false} DigitsOfNat(n: nat)
    ensures DigitsValue(NatToString(n)) == n
    decreases n
  {
    var s := NatToString(n);
    if n >= 10 {
      DigitsOfNat(n / 10);
      assert s[..|s| - 1] == NatToString(n / 10);
    }
  }

  /** `int(str(n)) == n`: rendering an integer and parsing it back is the identity. */
  lemma ParseRendered(n: int)
    ensures ParseInt(IntToString(n)) == Some(n)
  {
    if n < 0 {
      DigitsOfNat(-n);
      assert IntToString(n)[1..] == NatToString(-n);
    } else {
      DigitsOfNat(n);
    }
  }

  /** A run of `'0'` characters, possibly empty. */
  predicate AllZeros(z: string) { forall i :: 0 <= i < |z| ==> z[i] == '0' }

  lemma {:induction false} AllZerosValue(z: string)
    requires AllZeros(z)
    ensures AllDigits(z) && DigitsValue(z) == 0
    decreases |z|
  {
    if |z| > 0 {
      AllZerosValue(z[..|z| - 1]);
    }
  }

  /** Leading zeros do not change the value of a digit string. */
  lemma {:induction false} ZeroPrefixValue(z: string, s: string)
    requires AllZeros(z) && AllDigits(s)
    ensures AllDigits(z + s) && DigitsValue(z + s) == DigitsValue(s)
    decreases |s|
  {
    var t := z + s;
    if |s| == 0 {
      assert t == z;
      AllZerosValue(z);
    } else {
      ZeroPrefixValue(z, s[..|s| - 1]);
      assert t[..|t| - 1] == z + s[..|s| - 1];
    }
  }

  lemma {:induction false} LeadingDigitPositive(s: string)
    requires |s| >= 1 && AllDigits(s) && s[0] != '0'
    ensures DigitsValue(s) >= 1
    decreases |s|
  {
    if |s| > 1 {
      LeadingDigitPositive(s[..|s| - 1]);
    }
  }

  /** `str(int(s)) == s` for a digit string without leading zeros. */
  lemma {:induction false} RenderDigits(s: string)
    requires |s| >= 1 && AllDigits(s) && (|s| > 1 ==> s[0] != '0')
    ensures NatToString(DigitsValue(s)) == s
    decreases |s|
  {
    var last := s[|s| - 1];
    assert DigitChar(DigitValue(last)) == last;
    if |s| > 1 {
      var p := s[..|s| - 1];
      LeadingDigitPositive(p);
      RenderDigits(p);
      var n := DigitsValue(s);
      assert n / 10 == DigitsValue(p) && n % 10 == DigitValue(last);
      assert s == p + [last];
    }
  }

  /** Every digit string is a run of zeros followed by the rendering of its
      value, the last digit always belonging to the rendering. */
  lemma {:induction false} DigitsForm(s: string)
    requires |s| >= 1 && AllDigits(s)
    ensures exists k :: 0 <= k < |s| && AllZeros(s[..k]) && s[k..] == NatToString(DigitsValue(s))
    decreases |s|
  {
    if |s| == 1 || s[0] != '0' {
      RenderDigits(s);
      assert AllZeros(s[..0]) && s[0..] == s;
    } else {
      var t := s[1..];
      assert AllDigits(t);
      DigitsForm(t);
      var k :| 0 <= k < |t| && AllZeros(t[..k]) && t[k..] == NatToString(DigitsValue(t));
      ZeroPrefixValue("0", t);
      assert "0" + t == s;
      assert s[..k + 1] == "0" + t[..k];
      assert AllZeros(s[..k + 1]);
      assert s[k + 1..] == t[k..];
    }
  }

  /** `int()` of an optional sign, any run of zeros and `str(n)` is `n`, negated
      after `-`. With `DigitsForm` this fixes the value of every string `int()`
      accepts. */
  lemma ParseLeadingZeros(sign: string, zeros: string, n: nat)
    requires sign == "" || sign == "+" || sign == "-"
    requires AllZeros(zeros)
    ensures ParseInt(sign + zeros + NatToString(n)) == Some(if sign == "-" then -(n as int) else n as int)
  {
    var rendered := NatToString(n);
    var digits := zeros + rendered;
    DigitsOfNat(n);
    ZeroPrefixValue(zeros, rendered);
    assert |digits| >= 1 && AllDigits(digits) && DigitsValue(digits) == n;
    var s := sign + zeros + rendered;
    assert s == sign + digits;
    if sign == "" {
      assert s == digits;
      assert IsDigit(s[0]);
    } else {
      assert s[0] == sign[0];
      assert s[1..] == digits;
    }
  }

  // ---------------------------------------------------------------------------
  // Substring search

  /** `sub` occurs in `s` starting at index `i`. */
  predicate OccursAt(s: string, sub: string, i: int)
  {
    0 <= i && i + |sub| <= |s| && s[i..i + |sub|] == sub
  }

  /** The characters `sub[k..]` agree with `s` from index `i + k` on. */
  predicate MatchesFrom(s: string, sub: string, i: nat, k: nat)
    requires i + |sub| <= |s| && k <= |sub|
    decreases |sub| - k
  {
    k == |sub| || (s[i + k] == sub[k] && MatchesFrom(s, sub, i, k + 1))
  }

  lemma {:induction false} MatchesFromMeaning(s: string, sub: string, i: nat, k: nat)
    requires i + |sub| <= |s| && k <= |sub|
    ensures MatchesFrom(s, sub, i, k) <==> s[i + k..i + |sub|] == sub[k..]
    decreases |sub| - k
  {
    if k < |sub| {
      MatchesFromMeaning(s, sub, i, k + 1);
      assert s[i + k..i + |sub|] == [s[i + k]] + s[i + k + 1..i + |sub|];
      assert sub[k..] == [sub[k]] + sub[k + 1..];
    }
  }

  lemma OccursAtChars(s: string, sub: string, i: int)
    requires OccursAt(s, sub, i)
    ensures forall k :: 0 <= k < |sub| ==> s[i + k] == sub[k]
  {
  }

  /** Python's `sub in s` searching from index `i` on: tries each start position in turn. */
  function ContainsFrom(s: string, sub: string, i: nat): (b: bool)
    ensures b <==> exists j :: i <= j && OccursAt(s, sub, j)
    decreases |s| - i
  {
    if i + |sub| > |s| then
      assert forall j :: i <= j ==> !OccursAt(s, sub, j);
      false
    else
      MatchesFromMeaning(s, sub, i, 0);
      assert MatchesFrom(s, sub, i, 0) <==> OccursAt(s, sub, i);
      MatchesFrom(s, sub, i, 0) || ContainsFrom(s, sub, i + 1)
  }

  /** Python's `sub in s`. */
  function Contains(s: string, sub: string): (b: bool)
    ensures b <==> exists i :: OccursAt(s, sub, i)
  {
    ContainsFrom(s, sub, 0)
  }

  /** An occurrence cannot start inside a prefix that lacks the first character
      of `sub`, so such a prefix can be skipped. */
  lemma SkipPrefix(a: string, b: string, sub: string)
    requires |sub| > 0 && sub[0] !in a
    ensures Contains(a + b, sub) <==> Contains(b, sub)
  {
    if Contains(a + b, sub) {
      var i :| OccursAt(a + b, sub, i);
      assert (a + b)[i] == sub[0];
      assert (a + b)[i..i + |sub|] == b[i - |a|..i - |a| + |sub|];
      assert OccursAt(b, sub, i - |a|);
    }
    if Contains(b, sub) {
      var i :| OccursAt(b, sub, i);
      assert (a + b)[i + |a|..i + |a| + |sub|] == b[i..i + |sub|];
      assert OccursAt(a + b, sub, i + |a|);
    }
  }
}
