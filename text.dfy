/** Strings as the Python code formats and orders them: decimal numerals, code-point
    lexicographic order, `sorted` over a set, and `sep.join`. */
module Text {

  predicate IsDigit(c: char)
  {
    '0' <= c <= '9'
  }

  function DigitChar(d: nat): (c: char)
    requires d < 10
    ensures IsDigit(c) && c as int - '0' as int == d
  {
    (d + '0' as int) as char
  }

  /** `str(n)` for a non-negative int. */
  function NatToString(n: nat): (s: string)
    ensures |s| >= 1
    ensures forall i :: 0 <= i < |s| ==> IsDigit(s[i])
    ensures n >= 10 ==> s[0] != '0'
    decreases n
  {
    if n < 10 then [DigitChar(n)] else NatToString(n / 10) + [DigitChar(n % 10)]
  }

  /** The value of a string of decimal digits. */
  function DigitsValue(s: string): nat
    requires forall i :: 0 <= i < |s| ==> IsDigit(s[i])
  {
    if s == [] then 0
    else
      var last := s[|s| - 1];
      assert IsDigit(last);
      10 * DigitsValue(s[..|s| - 1]) + (last as int - '0' as int)
  }

  /** Reading back what `NatToString` wrote gives the number again, so distinct numbers get distinct numerals. */
  lemma {:induction false} NatToStringRoundTrip(n: nat)
    ensures DigitsValue(NatToString(n)) == n
    decreases n
  {
    if n >= 10 {
      NatToStringRoundTrip(n / 10);
      var s := NatToString(n);
      assert s[..|s| - 1] == NatToString(n / 10);
    }
  }

  lemma NatToStringInjective(m: nat, n: nat)
    requires NatToString(m) == NatToString(n)
    ensures m == n
  {
    NatToStringRoundTrip(m);
    NatToStringRoundTrip(n);
  }

  /** Python's `a <= b` on str: lexicographic by code point, a proper prefix first. */
  predicate LexLe(a: string, b: string)
  {
    if |a| == 0 then true
    else if |b| == 0 then false
    else if a[0] != b[0] then a[0] < b[0]
    else LexLe(a[1..], b[1..])
  }

  lemma {:induction false} LexReflexive(a: string)
    ensures LexLe(a, a)
  {
    if |a| > 0 {
      LexReflexive(a[1..]);
    }
  }

  lemma {:induction false} LexTotal(a: string, b: string)
    ensures LexLe(a, b) || LexLe(b, a)
  {
    if |a| > 0 && |b| > 0 && a[0] == b[0] {
      LexTotal(a[1..], b[1..]);
    }
  }

  lemma {:induction false} LexAntisymmetric(a: string, b: string)
    requires LexLe(a, b) && LexLe(b, a)
    ensures a == b
  {
    if |a| > 0 && |b| > 0 {
      LexAntisymmetric(a[1..], b[1..]);
      assert a == [a[0]] + a[1..];
      assert b == [b[0]] + b[1..];
    }
  }

  lemma {:induction false} LexTransitive(a: string, b: string, c: string)
    requires LexLe(a, b) && LexLe(b, c)
    ensures LexLe(a, c)
  {
    if |a| > 0 && |b| > 0 && |c| > 0 && a[0] == b[0] && b[0] == c[0] {
      LexTransitive(a[1..], b[1..], c[1..]);
    }
  }

  lemma LexAntisymmetricAll()
    ensures forall a, b :: LexLe(a, b) && LexLe(b, a) ==> a == b
  {
    forall a, b | LexLe(a, b) && LexLe(b, a) ensures a == b {
      LexAntisymmetric(a, b);
    }
  }

  /** `m` is the smallest string of `s`. */
  predicate IsLeast(m: string, s: set<string>)
  {
    m in s && forall t :: t in s ==> LexLe(m, t)
  }

  lemma {:induction false} LeastExists(s: set<string>)
    requires s != {}
    ensures exists m :: IsLeast(m, s)
    decreases |s|
  {
    var x :| x in s;
    if s == {x} {
      LexReflexive(x);
      assert IsLeast(x, s);
    } else {
      LeastExists(s - {x});
      var m :| IsLeast(m, s - {x});
      LexTotal(m, x);
      if LexLe(m, x) {
        assert IsLeast(m, s);
      } else {
        forall t | t in s ensures LexLe(x, t) {
          if t == x {
            LexReflexive(x);
          } else {
            LexTransitive(x, m, t);
          }
        }
        assert IsLeast(x, s);
      }
    }
  }

  /** Strictly increasing in Python's string order. */
  predicate StrictlySorted(xs: seq<string>)
  {
    forall i, j :: 0 <= i < j < |xs| ==> LexLe(xs[i], xs[j]) && xs[i] != xs[j]
  }

  /** `sorted(s)` for a set of strings: its elements, each once, in increasing order. */
  function SortedList(s: set<string>): (xs: seq<string>)
    ensures StrictlySorted(xs)
    ensures |xs| == |s|
    ensures forall t :: t in s <==> t in xs
    decreases |s|
  {
    if s == {} then []
    else
      LexAntisymmetricAll();
      LeastExists(s);
      var m :| IsLeast(m, s);
      var rest := SortedList(s - {m});
      assert forall j :: 0 <= j < |rest| ==> rest[j] in s - {m};
      [m] + rest
  }

  lemma HeadIsMember(xs: seq<string>)
    requires xs != []
    ensures xs[0] in xs
  {
  }

  /** Two increasing listings of the same set are the same listing. */
  lemma {:induction false} SortedListUnique(xs: seq<string>, ys: seq<string>)
    requires StrictlySorted(xs) && StrictlySorted(ys)
    requires forall t :: t in xs <==> t in ys
    ensures xs == ys
    decreases |xs|
  {
    if xs != [] && ys != [] {
      assert xs[0] in ys;
      assert ys[0] in xs;
      var i :| 0 <= i < |ys| && ys[i] == xs[0];
      var j :| 0 <= j < |xs| && xs[j] == ys[0];
      if i != 0 { assert LexLe(ys[0], ys[i]) && ys[0] != ys[i]; }
      if j != 0 { assert LexLe(xs[0], xs[j]) && xs[0] != xs[j]; }
      if i != 0 && j != 0 {
        LexAntisymmetric(xs[0], ys[0]);
      }
      assert xs[0] == ys[0];
      forall t ensures t in xs[1..] <==> t in ys[1..] {
        if t in xs[1..] {
          var k :| 0 <= k < |xs| - 1 && xs[1..][k] == t;
          assert xs[k + 1] == t && t != xs[0];
          assert t in ys;
          var l :| 0 <= l < |ys| && ys[l] == t;
          assert l != 0;
          assert ys[1..][l - 1] == t;
        }
        if t in ys[1..] {
          var k :| 0 <= k < |ys| - 1 && ys[1..][k] == t;
          assert ys[k + 1] == t && t != ys[0];
          assert t in xs;
          var l :| 0 <= l < |xs| && xs[l] == t;
          assert l != 0;
          assert xs[1..][l - 1] == t;
        }
      }
      SortedListUnique(xs[1..], ys[1..]);
      assert xs == [xs[0]] + xs[1..];
      assert ys == [ys[0]] + ys[1..];
    } else {
      if xs != [] {
        HeadIsMember(xs);
        assert false;
      } else if ys != [] {
        HeadIsMember(ys);
        assert false;
      }
    }
  }

  /** `sep.join(xs)`. */
  function Join(xs: seq<string>, sep: string): string
  {
    if xs == [] then ""
    else if |xs| == 1 then xs[0]
    else xs[0] + sep + Join(xs[1..], sep)
  }

  /** `w` occurs in `s` starting at index i. */
  predicate OccursAt(s: string, w: string, i: int)
  {
    0 <= i <= |s| - |w| && s[i..i + |w|] == w
  }

  /** Python's `w in s` on strings: `w` occurs in `s` as a contiguous substring. */
  predicate Contains(s: string, w: string)
  {
    exists i :: 0 <= i <= |s| - |w| && OccursAt(s, w, i)
  }

  lemma ContainsSelf(w: string)
    ensures Contains(w, w)
  {
    assert OccursAt(w, w, 0);
  }

  lemma ContainsLeft(x: string, y: string, w: string)
    requires Contains(x, w)
    ensures Contains(x + y, w)
  {
    var i :| 0 <= i <= |x| - |w| && OccursAt(x, w, i);
    assert (x + y)[i..i + |w|] == x[i..i + |w|];
    assert OccursAt(x + y, w, i);
  }

  lemma ContainsRight(x: string, y: string, w: string)
    requires Contains(y, w)
    ensures Contains(x + y, w)
  {
    var i :| 0 <= i <= |y| - |w| && OccursAt(y, w, i);
    assert (x + y)[|x| + i..|x| + i + |w|] == y[i..i + |w|];
    assert OccursAt(x + y, w, |x| + i);
  }

  /** A substring of a substring is a substring. */
  lemma ContainsTransitive(s: string, t: string, w: string)
    requires Contains(s, t) && Contains(t, w)
    ensures Contains(s, w)
  {
    var i :| 0 <= i <= |s| - |t| && OccursAt(s, t, i);
    var j :| 0 <= j <= |t| - |w| && OccursAt(t, w, j);
    forall k | 0 <= k < |w|
      ensures s[i + j + k] == w[k]
    {
      assert s[i + j + k] == s[i..i + |t|][j + k] == t[j..j + |w|][k];
    }
    assert s[i + j..i + j + |w|] == w;
    assert OccursAt(s, w, i + j);
  }

  /** `c.lower()` on ASCII letters; every other character is left as it is. */
  function LowerChar(c: char): (d: char)
    ensures !('A' <= d <= 'Z')
  {
    if 'A' <= c <= 'Z' then (c as int - 'A' as int + 'a' as int) as char else c
  }

  /** `s.lower()` restricted to ASCII: each character folded by LowerChar, the length kept. */
  function Lower(s: string): (t: string)
    ensures |t| == |s| && forall i :: 0 <= i < |s| ==> t[i] == LowerChar(s[i])
  {
    seq(|s|, i requires 0 <= i < |s| => LowerChar(s[i]))
  }

  /** `s` holds no upper-case ASCII letter. */
  predicate IsLowerCase(s: string)
  {
    forall i :: 0 <= i < |s| ==> !('A' <= s[i] <= 'Z')
  }

  lemma LowerOfLowerCase(s: string)
    requires IsLowerCase(s)
    ensures Lower(s) == s
  {
  }

  /** `m` is a string of `s` no longer than any other: a possible `min(s, key=len)`. */
  predicate IsShortest(m: string, s: set<string>)
  {
    m in s && forall t :: t in s ==> |m| <= |t|
  }

  lemma {:induction false} ShortestExists(s: set<string>)
    requires s != {}
    ensures exists m :: IsShortest(m, s)
    decreases |s|
  {
    var x :| x in s;
    if s == {x} {
      assert IsShortest(x, s);
    } else {
      ShortestExists(s - {x});
      var m :| IsShortest(m, s - {x});
      if |m| <= |x| {
        assert IsShortest(m, s);
      } else {
        assert IsShortest(x, s);
      }
    }
  }
}
