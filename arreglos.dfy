// The static array algorithms of Arreglos: in-place quicksort and selection
// sort, and recursive binary search. The comparator is the natural order of
// `int`: `compare(x, y) > 0` is `x > y`, `< 0` is `x < y`, `== 0` is `x == y`.

module Arreglos {

  /** The positions `lo..hi-1` of `s` are in non-decreasing order. */
  predicate OrdenadoEntre(s: seq<int>, lo: int, hi: int)
    requires 0 <= lo && hi <= |s|
  {
    forall k, l :: lo <= k < l < hi ==> s[k] <= s[l]
  }

  /** intercambia: swaps the entries at positions `i` and `j`. */
  method Intercambia(a: array<int>, i: int, j: int)
    requires 0 <= i < a.Length && 0 <= j < a.Length
    modifies a
    ensures a[..] == old(a[..])[i := old(a[..])[j]][j := old(a[..])[i]]
  {
    var aux := a[i];
    a[i] := a[j];
    a[j] := aux;
  }

  /** A swap of two positions inside `lo..hi` keeps the elements and leaves
      every position outside `lo..hi` alone. */
  lemma IntercambioPermuta(s: seq<int>, t: seq<int>, i: int, j: int, lo: int, hi: int)
    requires 0 <= lo <= i <= hi < |s| && lo <= j <= hi
    requires t == s[i := s[j]][j := s[i]]
    ensures multiset(t) == multiset(s)
    ensures IgualFuera(s, t, lo, hi)
  {
  }

  /** Entries `lo+1..i-1` are at most `p` and entries `j+1..hi` are above `p`. */
  predicate Separado(s: seq<int>, lo: int, i: int, j: int, hi: int, p: int)
    requires 0 <= lo <= j && i <= hi + 1 && hi < |s|
  {
    (forall k :: lo < k < i ==> s[k] <= p) && (forall k :: j < k <= hi ==> s[k] > p)
  }

  /** `t` agrees with `s` outside positions `lo..hi`. */
  predicate IgualFuera(s: seq<int>, t: seq<int>, lo: int, hi: int)
  {
    |s| == |t| && forall k :: 0 <= k < |s| && (k < lo || hi < k) ==> t[k] == s[k]
  }

  /** Swapping an out-of-place pair moves both fingers inward and keeps the
      elements and everything outside `lo..hi`. */
  lemma PasoIntercambio(s0: seq<int>, s: seq<int>, t: seq<int>, lo: int, i: int, j: int, hi: int, p: int)
    requires 0 <= lo < i < j <= hi < |s|
    requires Separado(s, lo, i, j, hi, p) && s[i] > p && s[j] <= p && s[lo] == p
    requires multiset(s) == multiset(s0) && IgualFuera(s0, s, lo, hi)
    requires t == s[i := s[j]][j := s[i]]
    ensures Separado(t, lo, i + 1, j - 1, hi, p) && t[lo] == p
    ensures multiset(t) == multiset(s0) && IgualFuera(s0, t, lo, hi)
  {
    IntercambioPermuta(s, t, i, j, lo, hi);
  }

  /** Swapping the pivot with the last entry not above it leaves it between
      the two halves, and the segment `lo..hi` keeps its elements. */
  lemma PivoteEnSuLugar(s0: seq<int>, s: seq<int>, t: seq<int>, lo: int, i: int, hi: int, p: int)
    requires 0 <= lo <= i <= hi < |s| && s[lo] == p
    requires Separado(s, lo, i + 1, i, hi, p)
    requires multiset(s) == multiset(s0) && IgualFuera(s0, s, lo, hi)
    requires t == s[i := s[lo]][lo := s[i]]
    ensures t[i] == p
    ensures Particionado(t, lo, i, hi)
    ensures multiset(t[lo..hi + 1]) == multiset(s0[lo..hi + 1]) && IgualFuera(s0, t, lo, hi)
  {
    IntercambioPermuta(s, t, i, lo, lo, hi);
    SegmentoPermutado(s0, t, lo, hi);
  }

  /** When the fingers meet, the last entry not above the pivot is at `i`,
      or at `i - 1` when the entry at `i` is above it. */
  lemma FinRecorrido(s: seq<int>, lo: int, i: int, j: int, hi: int, p: int)
    requires 0 <= lo && lo + 1 <= i <= j + 1 && j <= hi && i <= hi && hi < |s| && j <= i
    requires Separado(s, lo, i, j, hi, p)
    ensures var m := if s[i] > p then i - 1 else i; lo <= m <= hi && Separado(s, lo, m + 1, m, hi, p)
  {
  }

  /** The entry at `i` is not below any entry of `lo..i-1` and below every entry of `i+1..hi`. */
  predicate Particionado(s: seq<int>, lo: int, i: int, hi: int)
    requires 0 <= lo <= i <= hi < |s|
  {
    (forall k :: lo <= k < i ==> s[k] <= s[i]) && (forall k :: i < k <= hi ==> s[k] > s[i])
  }

  /** The partition step of quickSortAuxiliar: `i` walks up over entries not
      above the pivot `a[lo]`, `j` walks down over entries above it, out-of-place
      pairs are swapped, and the pivot is finally swapped into place `i`. */
  method Particion(a: array<int>, lo: int, hi: int) returns (i: int)
    requires 0 <= lo < hi < a.Length
    modifies a
    ensures lo <= i <= hi
    ensures a[i] == old(a[lo])
    ensures Particionado(a[..], lo, i, hi)
    ensures multiset(a[lo..hi + 1]) == multiset(old(a[lo..hi + 1]))
    ensures IgualFuera(old(a[..]), a[..], lo, hi)
  {
    ghost var inicial := a[..];
    var p := a[lo];
    i := lo + 1;
    var j := hi;
    while i < j
      invariant lo + 1 <= i <= j + 1 && j <= hi && i <= hi
      invariant a[lo] == p
      invariant Separado(a[..], lo, i, j, hi, p)
      invariant multiset(a[..]) == multiset(inicial)
      invariant IgualFuera(inicial, a[..], lo, hi)
      decreases j - i
    {
      if a[i] > a[lo] && a[j] <= a[lo] {
        ghost var antes := a[..];
        Intercambia(a, i, j);
        PasoIntercambio(inicial, antes, a[..], lo, i, j, hi, p);
        i := i + 1;
        j := j - 1;
      } else if a[i] <= a[lo] {
        i := i + 1;
      } else {
        j := j - 1;
      }
    }
    FinRecorrido(a[..], lo, i, j, hi, p);
    if a[i] > a[lo] {
      i := i - 1;
    }
    ghost var antes := a[..];
    Intercambia(a, i, lo);
    PivoteEnSuLugar(inicial, antes, a[..], lo, i, hi, p);
    assert a[lo..hi + 1] == a[..][lo..hi + 1];
    assert old(a[lo..hi + 1]) == inicial[lo..hi + 1];
  }

  /** Two arrays with the same elements that agree outside `lo..hi` hold the
      same elements inside `lo..hi`. */
  lemma SegmentoPermutado(s: seq<int>, t: seq<int>, lo: int, hi: int)
    requires 0 <= lo <= hi + 1 <= |s|
    requires multiset(s) == multiset(t) && IgualFuera(s, t, lo, hi)
    ensures multiset(t[lo..hi + 1]) == multiset(s[lo..hi + 1])
  {
    assert t[..lo] == s[..lo];
    assert t[hi + 1..] == s[hi + 1..];
    Tercios(s, lo, hi + 1);
    Tercios(t, lo, hi + 1);
    Cancela(multiset(s[..lo]), multiset(s[lo..hi + 1]), multiset(t[lo..hi + 1]), multiset(s[hi + 1..]));
  }

  /** A sequence is its prefix, middle and suffix. */
  lemma Tercios(s: seq<int>, i: int, j: int)
    requires 0 <= i <= j <= |s|
    ensures multiset(s) == multiset(s[..i]) + multiset(s[i..j]) + multiset(s[j..])
  {
    assert s == s[..i] + s[i..j] + s[j..];
  }

  /** Multiset union cancels on both sides. */
  lemma Cancela(a: multiset<int>, b: multiset<int>, d: multiset<int>, c: multiset<int>)
    requires a + b + c == a + d + c
    ensures b == d
  {
    forall z ensures b[z] == d[z] {
      assert (a + b + c)[z] == (a + d + c)[z];
    }
  }

  /** The elements of a segment are those left of `i`, the one at `i`, and those right of it. */
  lemma SegmentoPartido(s: seq<int>, lo: int, i: int, hi: int)
    requires 0 <= lo <= i <= hi < |s|
    ensures multiset(s[lo..hi + 1]) == multiset(s[lo..i]) + multiset{s[i]} + multiset(s[i + 1..hi + 1])
  {
    assert s[lo..hi + 1] == s[lo..i] + [s[i]] + s[i + 1..hi + 1];
  }

  /** A sorted left part, an entry not below it, and a sorted right part above
      it make a sorted segment. */
  lemma OrdenadoJunta(s: seq<int>, lo: int, i: int, hi: int)
    requires 0 <= lo <= i <= hi < |s|
    requires OrdenadoEntre(s, lo, i) && OrdenadoEntre(s, i + 1, hi + 1)
    requires Particionado(s, lo, i, hi)
    ensures OrdenadoEntre(s, lo, hi + 1)
  {
  }

  /** A bound on every entry of a segment survives a permutation of the segment. */
  lemma CotaSegmento(s: seq<int>, t: seq<int>, lo: int, hi: int, p: int, arriba: bool)
    requires 0 <= lo <= hi + 1 <= |s| && hi < |t|
    requires multiset(s[lo..hi + 1]) == multiset(t[lo..hi + 1])
    requires forall k :: lo <= k <= hi ==> if arriba then t[k] > p else t[k] <= p
    ensures forall k :: lo <= k <= hi ==> if arriba then s[k] > p else s[k] <= p
  {
    forall k | lo <= k <= hi ensures if arriba then s[k] > p else s[k] <= p {
      assert s[k] == s[lo..hi + 1][k - lo];
      assert s[k] in multiset(t[lo..hi + 1]);
      var m :| lo <= m <= hi && t[m] == s[k] by {
        assert s[k] in t[lo..hi + 1];
        var m' :| 0 <= m' < |t[lo..hi + 1]| && t[lo..hi + 1][m'] == s[k];
        assert t[lo + m'] == s[k];
      }
    }
  }

  /** quickSortAuxiliar: sorts positions `lo..hi` around the pivot `a[lo]`;
      nothing happens when `hi <= lo`. Only positions `lo..hi` change, and
      they only change places. */
  method QuickSortAuxiliar(a: array<int>, lo: int, hi: int)
    requires 0 <= lo <= hi + 1 <= a.Length
    modifies a
    ensures IgualFuera(old(a[..]), a[..], lo, hi)
    ensures OrdenadoEntre(a[..], lo, hi + 1)
    ensures multiset(a[lo..hi + 1]) == multiset(old(a[lo..hi + 1]))
    decreases hi - lo
  {
    if hi <= lo {
      return;
    }
    var i := Particion(a, lo, hi);
    ghost var particion := a[..];
    QuickSortAuxiliar(a, lo, i - 1);
    ghost var izquierda := a[..];
    QuickSortAuxiliar(a, i + 1, hi);
    MitadesPartidas(particion, izquierda, a[..], lo, i, hi);
    assert multiset(particion[lo..hi + 1]) == multiset(old(a[lo..hi + 1]));
  }

  /** After the pivot is placed at `i` and both halves are sorted in place,
      the whole segment `lo..hi` is sorted and holds the same elements. */
  lemma MitadesPartidas(s0: seq<int>, s1: seq<int>, s2: seq<int>, lo: int, i: int, hi: int)
    requires 0 <= lo <= i <= hi < |s0| && |s1| == |s0| && |s2| == |s0|
    requires Particionado(s0, lo, i, hi)
    requires IgualFuera(s0, s1, lo, i - 1)
    requires OrdenadoEntre(s1, lo, i)
    requires multiset(s1[lo..i]) == multiset(s0[lo..i])
    requires IgualFuera(s1, s2, i + 1, hi)
    requires OrdenadoEntre(s2, i + 1, hi + 1)
    requires multiset(s2[i + 1..hi + 1]) == multiset(s1[i + 1..hi + 1])
    ensures OrdenadoEntre(s2, lo, hi + 1)
    ensures multiset(s2[lo..hi + 1]) == multiset(s0[lo..hi + 1])
    ensures IgualFuera(s0, s2, lo, hi)
  {
    var p := s0[i];
    assert s2[lo..i] == s1[lo..i];
    assert s1[i + 1..hi + 1] == s0[i + 1..hi + 1];
    CotaSegmento(s2, s0, lo, i - 1, p, false);
    CotaSegmento(s2, s0, i + 1, hi, p, true);
    OrdenadoJunta(s2, lo, i, hi);
    SegmentoPartido(s2, lo, i, hi);
    SegmentoPartido(s0, lo, i, hi);
  }

  /** quickSort: sorts the whole array and only permutes its entries. */
  method QuickSort(a: array<int>)
    modifies a
    ensures OrdenadoEntre(a[..], 0, a.Length)
    ensures multiset(a[..]) == multiset(old(a[..]))
  {
    QuickSortAuxiliar(a, 0, a.Length - 1);
    assert a[0..a.Length] == a[..];
    assert old(a[0..a.Length]) == old(a[..]);
  }

  /** selectionSort: at step `i` moves a minimum of positions `i..` to `i`, so
      positions `0..i` hold the `i + 1` smallest entries in order. */
  method SelectionSort(a: array<int>)
    modifies a
    ensures OrdenadoEntre(a[..], 0, a.Length)
    ensures multiset(a[..]) == multiset(old(a[..]))
  {
    var i := 0;
    while i < a.Length
      invariant 0 <= i <= a.Length
      invariant multiset(a[..]) == multiset(old(a[..]))
      invariant PrefijoMinimo(a[..], i)
    {
      var m := i;
      var j := i + 1;
      while j < a.Length
        invariant i <= m < a.Length && i + 1 <= j <= a.Length
        invariant forall l :: i <= l < j ==> a[m] <= a[l]
      {
        if a[j] < a[m] {
          m := j;
        }
        j := j + 1;
      }
      ghost var antes := a[..];
      SeleccionAvanza(antes, i, m);
      Intercambia(a, i, m);
      i := i + 1;
    }
  }

  /** The first `i` positions are sorted and none is above a later position. */
  predicate PrefijoMinimo(s: seq<int>, i: int)
    requires 0 <= i <= |s|
  {
    OrdenadoEntre(s, 0, i) && forall k, l :: 0 <= k < i <= l < |s| ==> s[k] <= s[l]
  }

  /** Swapping a minimum of the unsorted part into position `i` extends the sorted prefix. */
  lemma SeleccionAvanza(s: seq<int>, i: int, m: int)
    requires 0 <= i <= m < |s|
    requires PrefijoMinimo(s, i)
    requires forall l :: i <= l < |s| ==> s[m] <= s[l]
    ensures PrefijoMinimo(s[i := s[m]][m := s[i]], i + 1)
    ensures multiset(s[i := s[m]][m := s[i]]) == multiset(s)
  {
    var t := s[i := s[m]][m := s[i]];
    assert forall k, l :: 0 <= k < i + 1 <= l < |t| ==> t[k] <= t[l] by {
      forall k, l | 0 <= k < i + 1 <= l < |t| ensures t[k] <= t[l] {
        if k < i {
          assert t[k] == s[k];
          assert t[l] == s[l] || t[l] == s[i];
        } else {
          assert t[k] == s[m];
          assert t[l] == s[l] || t[l] == s[i];
        }
      }
    }
    IntercambioPermuta(s, t, i, m, 0, |s| - 1);
  }

  /** busquedaBinariaAuxiliar: searches positions `lo..hi` through the middle
      `lo + (hi - lo) / 2`. */
  function BusquedaBinariaAuxiliar(a: array<int>, x: int, lo: int, hi: int): (r: int)
    requires 0 <= lo && hi < a.Length
    reads a
    ensures r == -1 || (lo <= r <= hi && a[r] == x)
    ensures OrdenadoEntre(a[..], lo, hi + 1) && (exists k :: lo <= k <= hi && a[k] == x) ==> r != -1
    decreases hi - lo
  {
    if hi < lo then -1
    else
      var m := lo + (hi - lo) / 2;
      if x == a[m] then m
      else if x < a[m] then BusquedaBinariaAuxiliar(a, x, lo, m - 1)
      else BusquedaBinariaAuxiliar(a, x, m + 1, hi)
  }

  /** busquedaBinaria: an index holding `x`, or -1; on a sorted array -1 means
      that `x` does not occur. */
  function BusquedaBinaria(a: array<int>, x: int): (r: int)
    reads a
    ensures -1 <= r < a.Length
    ensures r != -1 ==> a[r] == x
    ensures a.Length == 0 ==> r == -1
    ensures OrdenadoEntre(a[..], 0, a.Length) ==> (r == -1 <==> x !in a[..])
  {
    BusquedaBinariaAuxiliar(a, x, 0, a.Length - 1)
  }
}
