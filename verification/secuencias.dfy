/** Order-preserving filtering of sequences, the shape shared by
    `List.removeIf` and `stream().filter(..).collect(toList())`. */
module Secuencias {

  /** `a` can be obtained from `b` by deleting elements, keeping the order. */
  predicate EsSubsecuencia<T(==)>(a: seq<T>, b: seq<T>)
    decreases |b|
  {
    if |a| == 0 then true
    else if |b| == 0 then false
    else (a[0] == b[0] && EsSubsecuencia(a[1..], b[1..])) || EsSubsecuencia(a, b[1..])
  }

  /** The elements of `s` that satisfy `p`, in their original order. */
  function Filtrar<T(==,!new)>(s: seq<T>, p: T -> bool): (r: seq<T>)
    ensures |r| <= |s|
    ensures forall i :: 0 <= i < |r| ==> p(r[i])
  {
    if |s| == 0 then []
    else if p(s[0]) then [s[0]] + Filtrar(s[1..], p)
    else Filtrar(s[1..], p)
  }

  /** Filtering keeps every passing element as often as it occurs, and
      nothing else. */
  lemma {:induction false} FiltrarMultiset<T(!new)>(s: seq<T>, p: T -> bool)
    ensures forall x :: multiset(Filtrar(s, p))[x] == if p(x) then multiset(s)[x] else 0
    decreases |s|
  {
    if |s| != 0 {
      FiltrarMultiset(s[1..], p);
      assert s == [s[0]] + s[1..];
    }
  }

  /** Filtering preserves the relative order of what it keeps. */
  lemma {:induction false} FiltrarSubsecuencia<T(!new)>(s: seq<T>, p: T -> bool)
    ensures EsSubsecuencia(Filtrar(s, p), s)
    decreases |s|
  {
    if |s| != 0 {
      var resto := Filtrar(s[1..], p);
      FiltrarSubsecuencia(s[1..], p);
      if p(s[0]) {
        assert ([s[0]] + resto)[1..] == resto;
      }
    }
  }

  /** Filtering keeps everything exactly when every element passes,
      and keeps nothing when no element passes. */
  lemma {:induction false} FiltrarCompleto<T(!new)>(s: seq<T>, p: T -> bool)
    ensures |Filtrar(s, p)| == |s| <==> forall i :: 0 <= i < |s| ==> p(s[i])
    ensures (forall i :: 0 <= i < |s| ==> p(s[i])) ==> Filtrar(s, p) == s
    ensures (forall i :: 0 <= i < |s| ==> !p(s[i])) ==> Filtrar(s, p) == []
    decreases |s|
  {
    if |s| != 0 {
      FiltrarCompleto(s[1..], p);
      assert forall i :: 1 <= i < |s| ==> s[i] == s[1..][i - 1];
      assert s == [s[0]] + s[1..];
    }
  }

  /** Filtering distributes over concatenation. */
  lemma {:induction false} FiltrarConcat<T(!new)>(a: seq<T>, b: seq<T>, p: T -> bool)
    ensures Filtrar(a + b, p) == Filtrar(a, p) + Filtrar(b, p)
    decreases |a|
  {
    if |a| == 0 {
      assert a + b == b;
    } else {
      var ab := a + b;
      assert ab[0] == a[0] && ab[1..] == a[1..] + b;
      FiltrarConcat(a[1..], b, p);
    }
  }

  /** The positions of `s` whose element passes `p`. */
  function Posiciones<T>(s: seq<T>, p: T -> bool): (c: set<int>)
    ensures forall i :: i in c <==> 0 <= i < |s| && p(s[i])
  {
    set i | 0 <= i < |s| && p(s[i])
  }

  /** The length of the filter is the number of positions of `s` whose
      element passes `p`. */
  lemma {:induction false} FiltrarCuenta<T(!new)>(s: seq<T>, p: T -> bool)
    ensures |Filtrar(s, p)| == |Posiciones(s, p)|
    decreases |s|
  {
    if |s| != 0 {
      var n := |s| - 1;
      var inicio := s[..n];
      assert s == inicio + [s[n]];
      FiltrarCuenta(inicio, p);
      FiltrarConcat(inicio, [s[n]], p);
      FiltrarCompleto([s[n]], p);
      if p(s[n]) {
        assert Posiciones(s, p) == Posiciones(inicio, p) + {n};
      } else {
        assert Posiciones(s, p) == Posiciones(inicio, p);
      }
    }
  }

  /** Filtering drops exactly the one element that fails the predicate. */
  lemma {:induction false} FiltrarQuitaUno<T(!new)>(antes: seq<T>, x: T, despues: seq<T>, p: T -> bool)
    requires forall i :: 0 <= i < |antes| ==> p(antes[i])
    requires !p(x)
    requires forall i :: 0 <= i < |despues| ==> p(despues[i])
    ensures Filtrar(antes + [x] + despues, p) == antes + despues
  {
    assert Filtrar(antes + [x], p) == antes by {
      FiltrarConcat(antes, [x], p);
      FiltrarCompleto(antes, p);
      FiltrarCompleto([x], p);
    }
    assert Filtrar(despues, p) == despues by {
      FiltrarCompleto(despues, p);
    }
    FiltrarConcat(antes + [x], despues, p);
  }

  /** Every element of a subsequence occurs in the original sequence. */
  lemma {:induction false} SubsecuenciaContenida<T>(a: seq<T>, b: seq<T>)
    requires EsSubsecuencia(a, b)
    ensures forall i :: 0 <= i < |a| ==> a[i] in b
    decreases |b|
  {
    if |a| != 0 {
      assert |b| != 0;
      if a[0] == b[0] && EsSubsecuencia(a[1..], b[1..]) {
        SubsecuenciaContenida(a[1..], b[1..]);
        forall i | 0 <= i < |a|
          ensures a[i] in b
        {
          if i > 0 {
            assert a[i] == a[1..][i - 1];
            assert b == [b[0]] + b[1..];
          }
        }
      } else {
        SubsecuenciaContenida(a, b[1..]);
        assert b == [b[0]] + b[1..];
      }
    }
  }

  /** If a key is injective on `b`, it stays injective on every subsequence of `b`. */
  lemma {:induction false} SubsecuenciaInyectiva<T, K>(a: seq<T>, b: seq<T>, clave: T -> K)
    requires EsSubsecuencia(a, b)
    requires forall i, j :: 0 <= i < j < |b| ==> clave(b[i]) != clave(b[j])
    ensures forall i, j :: 0 <= i < j < |a| ==> clave(a[i]) != clave(a[j])
    decreases |b|
  {
    if |a| != 0 {
      assert |b| != 0;
      if a[0] == b[0] && EsSubsecuencia(a[1..], b[1..]) {
        SubsecuenciaInyectiva(a[1..], b[1..], clave);
        SubsecuenciaContenida(a[1..], b[1..]);
        forall i, j | 0 <= i < j < |a|
          ensures clave(a[i]) != clave(a[j])
        {
          if i == 0 {
            assert a[j] == a[1..][j - 1];
            var k :| 0 <= k < |b[1..]| && b[1..][k] == a[j];
            assert b[k + 1] == a[j];
          } else {
            assert a[i] == a[1..][i - 1] && a[j] == a[1..][j - 1];
          }
        }
      } else {
        SubsecuenciaInyectiva(a, b[1..], clave);
      }
    }
  }

  /** A subsequence never holds an element more often than the original. */
  lemma {:induction false} SubsecuenciaMultiset<T>(a: seq<T>, b: seq<T>)
    requires EsSubsecuencia(a, b)
    ensures multiset(a) <= multiset(b)
    decreases |b|
  {
    if |a| != 0 {
      assert b == [b[0]] + b[1..];
      if a[0] == b[0] && EsSubsecuencia(a[1..], b[1..]) {
        SubsecuenciaMultiset(a[1..], b[1..]);
        assert a == [a[0]] + a[1..];
      } else {
        SubsecuenciaMultiset(a, b[1..]);
      }
    }
  }

  /** `Filtrar` is the only order-preserving subsequence that keeps exactly
      the passing elements, each as often as it occurs. */
  lemma {:induction false} FiltrarUnico<T(!new)>(s: seq<T>, p: T -> bool, r: seq<T>)
    requires EsSubsecuencia(r, s)
    requires forall i :: 0 <= i < |r| ==> p(r[i])
    requires forall x :: multiset(r)[x] == if p(x) then multiset(s)[x] else 0
    ensures r == Filtrar(s, p)
    decreases |s|
  {
    if |s| == 0 {
      assert |r| == 0;
    } else {
      var s0, resto := s[0], s[1..];
      assert s == [s0] + resto;
      if p(s0) {
        assert multiset(r)[s0] == multiset(s)[s0] == multiset(resto)[s0] + 1;
        assert |r| != 0;
        if EsSubsecuencia(r, resto) {
          SubsecuenciaMultiset(r, resto);
          assert false;
        }
        assert r[0] == s0 && EsSubsecuencia(r[1..], resto);
        assert r == [s0] + r[1..];
        forall i | 0 <= i < |r[1..]|
          ensures p(r[1..][i])
        {
          assert r[1..][i] == r[i + 1];
        }
        FiltrarUnico(resto, p, r[1..]);
      } else {
        if |r| != 0 {
          assert p(r[0]);
          assert EsSubsecuencia(r, resto);
        }
        forall x
          ensures multiset(r)[x] == if p(x) then multiset(resto)[x] else 0
        {
          if p(x) {
            assert x != s0;
          }
        }
        FiltrarUnico(resto, p, r);
      }
    }
  }
}
