/** String helpers the core relies on: the case-insensitive LIKE matching that
    the database applies for `ilike`, decimal rendering of integers (`str(n)`),
    zero padding, and single-character replacement (`str.replace`). */
module Text {

  // ---------------------------------------------------------------------------
  // Case folding and ILIKE
  // ---------------------------------------------------------------------------

  /** ASCII lower-casing; other characters are left as they are. */
  function Lower(c: char): char
  {
    if 'A' <= c <= 'Z' then (c as int + 32) as char else c
  }

  /** The two LIKE wildcards: `%` (any run of characters) and `_` (one character). */
  predicate IsWildcard(c: char)
  {
    c == '%' || c == '_'
  }

  predicate NoWildcards(q: string)
  {
    forall i :: 0 <= i < |q| ==> !IsWildcard(q[i])
  }

  /** `s ILIKE p`: the whole of `s` matches the pattern `p`, ignoring case. */
  predicate Like(s: string, p: string)
    decreases |p|, |s|
  {
    if p == [] then s == []
    else if p[0] == '%' then Like(s, p[1..]) || (s != [] && Like(s[1..], p))
    else if p[0] == '_' then s != [] && Like(s[1..], p[1..])
    else s != [] && Lower(s[0]) == Lower(p[0]) && Like(s[1..], p[1..])
  }

  /** The filter `column.ilike(f"%{q}%")`: the query is spliced into a pattern,
      so wildcard characters inside `q` keep their pattern meaning. */
  predicate ILikeContains(s: string, q: string)
  {
    Like(s, "%" + q + "%")
  }

  /** `q` occurs in `s` at offset `k`, ignoring case. */
  predicate MatchesAt(s: string, q: string, k: int)
  {
    0 <= k && k + |q| <= |s| && forall i :: 0 <= i < |q| ==> Lower(s[k + i]) == Lower(q[i])
  }

  /** Plain case-insensitive substring containment. */
  predicate ContainsIgnoringCase(s: string, q: string)
  {
    exists k :: 0 <= k <= |s| && MatchesAt(s, q, k)
  }

  lemma {:induction false} LikeAnyRest(s: string)
    ensures Like(s, "%")
    decreases |s|
  {
    if s != [] {
      LikeAnyRest(s[1..]);
    }
  }

  /** A wildcard-free `q` followed by `%` matches exactly the strings that start with `q`. */
  lemma {:induction false} LikePrefix(s: string, q: string)
    requires NoWildcards(q)
    ensures Like(s, q + "%") <==> MatchesAt(s, q, 0)
    decreases |q|
  {
    var p := q + "%";
    if q == [] {
      assert p == "%";
      LikeAnyRest(s);
    } else {
      assert p[0] == q[0] && p[1..] == q[1..] + "%";
      if s != [] {
        LikePrefix(s[1..], q[1..]);
        if MatchesAt(s, q, 0) {
          assert MatchesAt(s[1..], q[1..], 0) by {
            forall i | 0 <= i < |q[1..]| ensures Lower(s[1..][i]) == Lower(q[1..][i]) {
              assert Lower(s[0 + (i + 1)]) == Lower(q[i + 1]);
            }
          }
        }
        if Lower(s[0]) == Lower(q[0]) && MatchesAt(s[1..], q[1..], 0) {
          forall i | 0 <= i < |q| ensures Lower(s[0 + i]) == Lower(q[i]) {
            if i > 0 {
              assert Lower(s[1..][0 + (i - 1)]) == Lower(q[1..][i - 1]);
            }
          }
        }
      }
    }
  }

  /** A leading `%` lets the rest of the pattern match any suffix. */
  lemma {:induction false} LikeLeadingPercent(s: string, r: string)
    ensures Like(s, "%" + r) <==> exists k :: 0 <= k <= |s| && Like(s[k..], r)
    decreases |s|
  {
    var p := "%" + r;
    assert p[0] == '%' && p[1..] == r;
    if s == [] {
      assert s[0..] == s;
    } else {
      LikeLeadingPercent(s[1..], r);
      if Like(s, p) {
        if Like(s, r) {
          assert s[0..] == s;
        } else {
          var k :| 0 <= k <= |s[1..]| && Like(s[1..][k..], r);
          assert s[1..][k..] == s[k + 1..];
        }
      }
      if exists k :: 0 <= k <= |s| && Like(s[k..], r) {
        var k :| 0 <= k <= |s| && Like(s[k..], r);
        if k == 0 {
          assert s[0..] == s;
        } else {
          assert s[1..][k - 1..] == s[k..];
        }
      }
    }
  }

  /** For a query without wildcard characters the `ilike` filter is exactly
      case-insensitive substring search. */
  lemma ILikeIsSubstring(s: string, q: string)
    requires NoWildcards(q)
    ensures ILikeContains(s, q) <==> ContainsIgnoringCase(s, q)
  {
    assert "%" + q + "%" == "%" + (q + "%");
    LikeLeadingPercent(s, q + "%");
    if ILikeContains(s, q) {
      var k :| 0 <= k <= |s| && Like(s[k..], q + "%");
      LikePrefix(s[k..], q);
      assert MatchesAt(s, q, k) by {
        forall i | 0 <= i < |q| ensures Lower(s[k + i]) == Lower(q[i]) {
          assert Lower(s[k..][0 + i]) == Lower(q[i]);
        }
      }
    }
    if ContainsIgnoringCase(s, q) {
      var k :| 0 <= k <= |s| && MatchesAt(s, q, k);
      LikePrefix(s[k..], q);
      assert MatchesAt(s[k..], q, 0) by {
        forall i | 0 <= i < |q| ensures Lower(s[k..][0 + i]) == Lower(q[i]) {
          assert Lower(s[k + i]) == Lower(q[i]);
        }
      }
      assert Like(s[k..], q + "%");
    }
  }

  /** An empty `%%` pattern matches every string, so an empty query filters nothing. */
  lemma EmptyQueryMatchesAll(s: string)
    ensures ILikeContains(s, "")
  {
    assert "%" + "" + "%" == "%" + "%";
    LikeLeadingPercent(s, "%");
    LikeAnyRest(s);
    assert s[0..] == s;
  }

  // ---------------------------------------------------------------------------
  // Decimal rendering (`str(n)`) and its inverse
  // ---------------------------------------------------------------------------

  predicate IsDigit(c: char)
  {
    '0' <= c <= '9'
  }

  predicate IsDigits(s: string)
  {
    forall i :: 0 <= i < |s| ==> IsDigit(s[i])
  }

  function DigitChar(d: int): (c: char)
    requires 0 <= d < 10
    ensures IsDigit(c) && c as int - '0' as int == d
  {
    ('0' as int + d) as char
  }

  /** Decimal digits of `n`, most significant first, no leading zeros. */
  function NatToString(n: nat): (r: string)
    ensures |r| >= 1 && IsDigits(r)
    decreases n
  {
    if n < 10 then [DigitChar(n)] else NatToString(n / 10) + [DigitChar(n % 10)]
  }

  /** The value of a string of decimal digits (the empty string reads as 0). */
  function ParseNat(s: string): nat
    requires IsDigits(s)
    decreases |s|
  {
    if s == [] then 0 else ParseNat(s[..|s| - 1]) * 10 + (s[|s| - 1] as int - '0' as int)
  }

  lemma {:induction false} ParseNatToString(n: nat)
    ensures ParseNat(NatToString(n)) == n
    decreases n
  {
    if n >= 10 {
      var r := NatToString(n);
      assert r[..|r| - 1] == NatToString(n / 10);
      ParseNatToString(n / 10);
    }
  }

  /** Distinct numbers render as distinct strings. */
  lemma NatToStringInjective(a: nat, b: nat)
    ensures NatToString(a) == NatToString(b) ==> a == b
  {
    ParseNatToString(a);
    ParseNatToString(b);
  }

  /** Python's `str(n)` for an integer. */
  function IntToString(n: int): (r: string)
  {
    if n < 0 then "-" + NatToString(-n) else NatToString(n)
  }

  function ParseInt(s: string): int
  {
    if |s| >= 1 && s[0] == '-' && IsDigits(s[1..]) then -(ParseNat(s[1..]) as int)
    else if IsDigits(s) then ParseNat(s)
    else 0
  }

  lemma IntToStringRoundTrip(n: int)
    ensures ParseInt(IntToString(n)) == n
  {
    if n < 0 {
      var r := IntToString(n);
      assert r[1..] == NatToString(-n);
      ParseNatToString(-n);
    } else {
      ParseNatToString(n);
    }
  }

  // ---------------------------------------------------------------------------
  // Zero padding
  // ---------------------------------------------------------------------------

  function Zeros(k: nat): (r: string)
    ensures |r| == k && IsDigits(r)
  {
    seq(k, _ => '0')
  }

  /** `n` in decimal, left-padded with zeros to at least `width` characters. */
  function Padded(n: nat, width: nat): (r: string)
    ensures IsDigits(r)
  {
    var d := NatToString(n);
    if |d| >= width then d else Zeros(width - |d|) + d
  }

  lemma {:induction false} ParseNatLeadingZero(t: string)
    requires IsDigits(t)
    ensures ParseNat("0" + t) == ParseNat(t)
    decreases |t|
  {
    if t != [] {
      var u := "0" + t;
      assert u[..|u| - 1] == "0" + t[..|t| - 1];
      ParseNatLeadingZero(t[..|t| - 1]);
    }
  }

  lemma {:induction false} ParseNatLeadingZeros(k: nat, t: string)
    requires IsDigits(t)
    ensures ParseNat(Zeros(k) + t) == ParseNat(t)
    decreases k
  {
    if k > 0 {
      var u := Zeros(k - 1) + t;
      assert IsDigits(u);
      assert Zeros(k) + t == "0" + u;
      ParseNatLeadingZeros(k - 1, t);
      ParseNatLeadingZero(u);
    } else {
      assert Zeros(k) + t == t;
    }
  }

  /** Padding never changes the value read back. */
  lemma PaddedRoundTrip(n: nat, width: nat)
    ensures ParseNat(Padded(n, width)) == n
  {
    var d := NatToString(n);
    ParseNatToString(n);
    if |d| < width {
      ParseNatLeadingZeros(width - |d|, d);
    }
  }

  lemma {:induction false} NatToStringShort(n: nat, width: nat)
    requires width >= 1 && n < Pow10(width)
    ensures |NatToString(n)| <= width
    decreases n
  {
    if n >= 10 {
      NatToStringShort(n / 10, width - 1);
    }
  }

  function Pow10(k: nat): (r: nat)
    ensures r >= 1
  {
    if k == 0 then 1 else 10 * Pow10(k - 1)
  }

  /** A number below 10^width pads to exactly `width` characters. */
  lemma PaddedWidth(n: nat, width: nat)
    requires width >= 1 && n < Pow10(width)
    ensures |Padded(n, width)| == width
  {
    NatToStringShort(n, width);
  }

  // ---------------------------------------------------------------------------
  // Character replacement
  // ---------------------------------------------------------------------------

  /** `s.replace(a, b)` for single characters `a` and `b`. */
  function ReplaceChar(s: string, a: char, b: char): (r: string)
  {
    seq(|s|, i requires 0 <= i < |s| => if s[i] == a then b else s[i])
  }
}
