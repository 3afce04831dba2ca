/**
 * The JavaScript string built-ins the component relies on:
 * the default order of `Array.prototype.sort` on strings, `Object.keys(o).sort()`,
 * `Array.prototype.join` and the rendering of an integer inside a template literal.
 */
module Strings {

  /** Strict lexicographic order on strings: a proper prefix comes first,
      otherwise the first differing character decides. */
  predicate Less(a: string, b: string)
    ensures a < b ==> Less(a, b)
    ensures Less(a, b) ==> !(b <= a)
    decreases |a|
  {
    if a == [] then b != []
    else if b == [] then false
    else if a[0] != b[0] then a[0] < b[0]
    else Less(a[1..], b[1..])
  }

  lemma {:induction false} LessIrreflexive(a: string)
    ensures !Less(a, a)
    decreases |a|
  {
    if a != [] {
      LessIrreflexive(a[1..]);
    }
  }

  lemma {:induction false} LessTransitive(a: string, b: string, c: string)
    requires Less(a, b) && Less(b, c)
    ensures Less(a, c)
    decreases |a|
  {
    if a != [] && a[0] == b[0] && b[0] == c[0] {
      LessTransitive(a[1..], b[1..], c[1..]);
    }
  }

  lemma {:induction false} LessTotal(a: string, b: string)
    ensures a == b || Less(a, b) || Less(b, a)
    decreases |a|
  {
    if a != [] && b != [] && a[0] == b[0] {
      LessTotal(a[1..], b[1..]);
      if a[1..] == b[1..] {
        assert a == [a[0]] + a[1..] && b == [b[0]] + b[1..];
      }
    }
  }

  lemma {:induction false} LessAsymmetric(a: string, b: string)
    requires Less(a, b)
    ensures !Less(b, a)
  {
    if Less(b, a) {
      LessTransitive(a, b, a);
      LessIrreflexive(a);
    }
  }

  /** Every element of `s` other than `k` comes after `k`. */
  predicate IsLeast(k: string, s: set<string>)
  {
    k in s && forall j :: j in s && j != k ==> Less(k, j)
  }

  predicate StrictlySorted(ks: seq<string>)
  {
    forall i, j :: 0 <= i < j < |ks| ==> Less(ks[i], ks[j])
  }

  lemma {:induction false} LeastExists(s: set<string>)
    requires s != {}
    ensures exists k :: IsLeast(k, s)
    decreases |s|
  {
    var x :| x in s;
    var rest := s - {x};
    if rest == {} {
      assert s == {x};
      assert IsLeast(x, s);
    } else {
      LeastExists(rest);
      var m :| IsLeast(m, rest);
      LessTotal(x, m);
      if Less(x, m) {
        forall j | j in s && j != x
          ensures Less(x, j)
        {
          if j != m {
            LessTransitive(x, m, j);
          }
        }
        assert IsLeast(x, s);
      } else {
        assert IsLeast(m, s);
      }
    }
  }

  lemma LeastUnique(k: string, k': string, s: set<string>)
    requires IsLeast(k, s) && IsLeast(k', s)
    ensures k == k'
  {
    if k != k' {
      LessAsymmetric(k, k');
    }
  }

  lemma LeastIsUnique(s: set<string>)
    ensures forall k, k' :: IsLeast(k, s) && IsLeast(k', s) ==> k == k'
  {
    forall k, k' | IsLeast(k, s) && IsLeast(k', s)
      ensures k == k'
    {
      LeastUnique(k, k', s);
    }
  }

  /** Putting the least key before a sorted enumeration of the others sorts them all. */
  lemma LeastThenRest(k: string, rest: seq<string>, s: set<string>)
    requires IsLeast(k, s)
    requires StrictlySorted(rest) && |rest| == |s - {k}|
    requires forall j :: j in rest <==> j in s - {k}
    ensures StrictlySorted([k] + rest) && |[k] + rest| == |s|
    ensures forall j :: j in [k] + rest <==> j in s
  {
    var r := [k] + rest;
    forall i, j | 0 <= i < j < |r|
      ensures Less(r[i], r[j])
    {
      if i == 0 {
        assert r[j] == rest[j - 1] && r[j] in s - {k};
      } else {
        assert r[i] == rest[i - 1] && r[j] == rest[j - 1];
      }
    }
  }

  /** `Object.keys(o).sort()` for an object whose own keys are `s`: the keys of `s`
      in ascending order, each exactly once. */
  function SortedKeys(s: set<string>): (r: seq<string>)
    ensures StrictlySorted(r)
    ensures |r| == |s|
    ensures forall k :: k in r <==> k in s
    decreases |s|
  {
    if s == {} then []
    else
      LeastExists(s);
      LeastIsUnique(s);
      var k :| IsLeast(k, s);
      var rest := SortedKeys(s - {k});
      LeastThenRest(k, rest, s);
      [k] + rest
  }

  /** The first key of a strictly sorted enumeration of `s` is the least of `s`. */
  lemma HeadIsLeast(ks: seq<string>, s: set<string>)
    requires ks != [] && StrictlySorted(ks)
    requires forall k :: k in ks <==> k in s
    ensures IsLeast(ks[0], s)
  {
    forall j | j in s && j != ks[0]
      ensures Less(ks[0], j)
    {
      var i :| 0 <= i < |ks| && ks[i] == j;
    }
  }

  /** Sorting a non-empty set puts its least key first and sorts the others after it. */
  lemma SortedKeysHead(s: set<string>, k: string)
    requires IsLeast(k, s)
    ensures SortedKeys(s) == [k] + SortedKeys(s - {k})
  {
    var r := SortedKeys(s);
    LeastUnique(r[0], k, s);
  }

  /** Without its first key, a strictly sorted enumeration of `s` enumerates the rest of `s`. */
  lemma TailEnumeratesRest(ks: seq<string>, s: set<string>)
    requires ks != [] && StrictlySorted(ks)
    requires forall k :: k in ks <==> k in s
    ensures StrictlySorted(ks[1..])
    ensures forall k :: k in ks[1..] <==> k in s - {ks[0]}
  {
    forall k
      ensures k in ks[1..] <==> k in s - {ks[0]}
    {
      if k in ks[1..] {
        var i :| 1 <= i < |ks| && ks[i] == k;
        if k == ks[0] {
          LessIrreflexive(k);
        }
      }
      if k in s - {ks[0]} {
        var i :| 0 <= i < |ks| && ks[i] == k;
        assert ks[1..][i - 1] == k;
      }
    }
  }

  /** Sorting distinct keys has exactly one outcome, whatever order `Object.keys`
      enumerated them in: any strictly ascending enumeration of `s` is `SortedKeys(s)`. */
  lemma {:induction false} SortedKeysUnique(ks: seq<string>, s: set<string>)
    requires StrictlySorted(ks)
    requires forall k :: k in ks <==> k in s
    ensures ks == SortedKeys(s)
    decreases |s|
  {
    if ks == [] {
      assert s == {};
    } else {
      var k, tail := ks[0], ks[1..];
      HeadIsLeast(ks, s);
      TailEnumeratesRest(ks, s);
      SortedKeysUnique(tail, s - {k});
      SortedKeysHead(s, k);
      calc {
        SortedKeys(s);
        [k] + SortedKeys(s - {k});
        [k] + tail;
        ks;
      }
    }
  }

  /** `parts.join(sep)`. */
  function Join(parts: seq<string>, sep: string): (r: string)
    ensures parts == [] ==> r == ""
    ensures parts != [] ==> parts[0] <= r
  {
    if |parts| == 0 then ""
    else if |parts| == 1 then parts[0]
    else
      parts[0] + sep + Join(parts[1..], sep)
  }

  /** A join ends with its last part. */
  lemma JoinEndsWithLast(parts: seq<string>, sep: string)
    requires parts != []
    ensures var r, last := Join(parts, sep), parts[|parts| - 1];
            |last| <= |r| && r[|r| - |last|..] == last
  {
    var last := parts[|parts| - 1];
    if |parts| > 1 {
      var init := parts[..|parts| - 1];
      assert parts == init + [last];
      JoinSnoc(init, last, sep);
    }
  }

  /** Joining one more part appends the separator and that part. */
  lemma {:induction false} JoinSnoc(parts: seq<string>, x: string, sep: string)
    requires parts != []
    ensures Join(parts + [x], sep) == Join(parts, sep) + sep + x
    decreases |parts|
  {
    if |parts| > 1 {
      assert (parts + [x])[1..] == parts[1..] + [x];
      JoinSnoc(parts[1..], x, sep);
    }
  }

  predicate IsDigit(c: char)
  {
    '0' <= c <= '9'
  }

  function DigitChar(d: nat): (c: char)
    requires d < 10
    ensures IsDigit(c)
  {
    "0123456789"[d]
  }

  function DigitValue(c: char): (d: nat)
    requires IsDigit(c)
    ensures d < 10
  {
    (c - '0') as nat
  }

  lemma DigitRoundTrip(d: nat)
    requires d < 10
    ensures DigitValue(DigitChar(d)) == d
  {
  }

  /** The decimal digits of `n` as `String(n)` writes them: no leading zero. */
  function NatToDecimal(n: nat): (s: string)
    ensures s != []
    ensures forall i :: 0 <= i < |s| ==> IsDigit(s[i])
    ensures |s| > 1 ==> s[0] != '0'
    decreases n
  {
    if n < 10 then [DigitChar(n)]
    else NatToDecimal(n / 10) + [DigitChar(n % 10)]
  }

  /** The number a string of decimal digits denotes. */
  function DecimalValue(s: string): (n: nat)
    requires forall i :: 0 <= i < |s| ==> IsDigit(s[i])
    decreases |s|
  {
    if s == [] then 0
    else DecimalValue(s[..|s| - 1]) * 10 + DigitValue(s[|s| - 1])
  }

  lemma {:induction false} NatToDecimalRoundTrip(n: nat)
    ensures DecimalValue(NatToDecimal(n)) == n
    decreases n
  {
    var s := NatToDecimal(n);
    if n < 10 {
      DigitRoundTrip(n);
    } else {
      NatToDecimalRoundTrip(n / 10);
      DigitRoundTrip(n % 10);
      assert s[..|s| - 1] == NatToDecimal(n / 10);
    }
  }

  /** `${n}` for an integer `n`. */
  function IntToDecimal(n: int): (s: string)
    ensures s != []
    ensures n < 0 <==> s[0] == '-'
  {
    if n < 0 then "-" + NatToDecimal(-n) else NatToDecimal(n)
  }

  /** A non-empty run of decimal digits without a leading zero (other than "0" itself). */
  predicate IsDigits(d: string)
  {
    d != [] && (forall i :: 0 <= i < |d| ==> IsDigit(d[i])) && (|d| > 1 ==> d[0] != '0')
  }

  /** The shape of the text `IntToDecimal` writes: digits, or a minus sign followed by
      digits other than "0". */
  predicate IsIntText(s: string)
  {
    if s != [] && s[0] == '-' then IsDigits(s[1..]) && s[1..] != "0" else IsDigits(s)
  }

  /** Reads back what `IntToDecimal` writes. */
  function ParseInt(s: string): (n: int)
    requires IsIntText(s)
  {
    if s[0] == '-' then 0 - DecimalValue(s[1..]) as int else DecimalValue(s)
  }

  lemma NegativeRoundTrip(m: nat)
    requires m > 0
    ensures IsIntText("-" + NatToDecimal(m)) && ParseInt("-" + NatToDecimal(m)) == -(m as int)
  {
    var d := NatToDecimal(m);
    var s := "-" + d;
    assert s[1..] == d;
    NatToDecimalRoundTrip(m);
    assert DecimalValue("0") == 0;
  }

  lemma NonNegativeRoundTrip(m: nat)
    ensures IsIntText(NatToDecimal(m)) && ParseInt(NatToDecimal(m)) == m
  {
    var d := NatToDecimal(m);
    assert d[0] != '-';
    NatToDecimalRoundTrip(m);
  }

  lemma IntToDecimalRoundTrip(n: int)
    ensures IsIntText(IntToDecimal(n))
    ensures ParseInt(IntToDecimal(n)) == n
  {
    if n < 0 {
      var m: nat := -n;
      NegativeRoundTrip(m);
      assert IntToDecimal(n) == "-" + NatToDecimal(m);
    } else {
      NonNegativeRoundTrip(n);
      assert IntToDecimal(n) == NatToDecimal(n);
    }
  }
}
