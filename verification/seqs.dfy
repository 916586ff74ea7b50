/** Sequence and string helpers: duplicate-freedom, `SELECT DISTINCT`, and the
    binary string order SQLite uses for `MAX` over a TEXT column. */
module Seqs {

  /** No value occurs twice. */
  predicate Distinct<T(==)>(s: seq<T>) {
    forall i, j :: 0 <= i < j < |s| ==> s[i] != s[j]
  }

  /** Two duplicate-free sequences with no common value concatenate to a
      duplicate-free sequence. */
  lemma DistinctConcat<T>(a: seq<T>, b: seq<T>)
    requires Distinct(a) && Distinct(b)
    requires forall x :: x in a ==> x !in b
    ensures Distinct(a + b)
  {
    forall i, j | 0 <= i < j < |a + b| ensures (a + b)[i] != (a + b)[j] {
      if i < |a| && j >= |a| {
        assert (a + b)[i] == a[i] && a[i] in a;
        assert (a + b)[j] == b[j - |a|] && b[j - |a|] in b;
      }
    }
  }

  /** The values of `s`, each once, in order of first occurrence. */
  function Dedup<T(==,!new)>(s: seq<T>): (r: seq<T>)
    ensures forall x :: x in r <==> x in s
    ensures Distinct(r)
    ensures |r| <= |s|
  {
    if s == [] then []
    else
      var init, last := s[..|s| - 1], s[|s| - 1];
      assert s == init + [last];
      var rest := Dedup(init);
      if last in rest then rest else rest + [last]
  }

  /** `a <= b` in lexicographic code-point order: the order of SQLite's BINARY
      collation, which compares the UTF-8 bytes and so agrees with code points. */
  predicate StrLeq(a: string, b: string)
    decreases |a|
  {
    |a| == 0 || (|b| > 0 && (a[0] < b[0] || (a[0] == b[0] && StrLeq(a[1..], b[1..]))))
  }

  lemma {:induction false} StrLeqReflexive(a: string)
    ensures StrLeq(a, a)
    decreases |a|
  {
    if |a| > 0 {
      StrLeqReflexive(a[1..]);
    }
  }

  lemma {:induction false} StrLeqTotal(a: string, b: string)
    ensures StrLeq(a, b) || StrLeq(b, a)
    decreases |a|
  {
    if |a| > 0 && |b| > 0 && a[0] == b[0] {
      StrLeqTotal(a[1..], b[1..]);
    }
  }

  lemma {:induction false} StrLeqTransitive(a: string, b: string, c: string)
    requires StrLeq(a, b) && StrLeq(b, c)
    ensures StrLeq(a, c)
    decreases |a|
  {
    if |a| > 0 && a[0] == b[0] && b[0] == c[0] {
      StrLeqTransitive(a[1..], b[1..], c[1..]);
    }
  }

  lemma {:induction false} StrLeqAntisymmetric(a: string, b: string)
    requires StrLeq(a, b) && StrLeq(b, a)
    ensures a == b
    decreases |a|
  {
    if |a| > 0 {
      StrLeqAntisymmetric(a[1..], b[1..]);
      assert a == [a[0]] + a[1..];
      assert b == [b[0]] + b[1..];
    }
  }

  /** `MAX(...)` over a non-empty column of strings. */
  function MaxString(s: seq<string>): (r: string)
    requires |s| > 0
    ensures r in s
    ensures forall i :: 0 <= i < |s| ==> StrLeq(s[i], r)
  {
    if |s| == 1 then
      StrLeqReflexive(s[0]);
      s[0]
    else
      var m := MaxString(s[1..]);
      StrLeqReflexive(s[0]);
      StrLeqTotal(m, s[0]);
      if StrLeq(m, s[0]) then
        assert forall i :: 1 <= i < |s| ==> StrLeq(s[i], m) by {
          forall i | 1 <= i < |s| ensures StrLeq(s[i], m) {
            assert s[i] == s[1..][i - 1];
          }
        }
        forall i | 1 <= i < |s| ensures StrLeq(s[i], s[0]) {
          StrLeqTransitive(s[i], m, s[0]);
        }
        s[0]
      else
        assert forall i :: 1 <= i < |s| ==> StrLeq(s[i], m) by {
          forall i | 1 <= i < |s| ensures StrLeq(s[i], m) {
            assert s[i] == s[1..][i - 1];
          }
        }
        m
  }
}
