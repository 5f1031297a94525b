// ArbolBinarioCompleto: a binary tree that is always as close to full as
// possible. Such a tree is determined by its elements in breadth-first
// order, so the object keeps that level-order sequence: the vertex at index
// `i` has its children at `2i+1` and `2i+2` when those indices exist, and
// `ArbolDe` rebuilds the linked vertices. The breadth-first queues of the
// source hold vertices; here they hold the vertices' indices.

module Completo {
  import opened Vertices
  import opened Posiciones
  import opened ArbolBinario

  function Min(a: int, b: int): (m: int)
    ensures m <= a && m <= b && (m == a || m == b)
  {
    if a <= b then a else b
  }

  /** The indices `a, a+1, ..., b-1`. */
  function Rango(a: int, b: int): (r: seq<int>)
    ensures |r| == (if a < b then b - a else 0)
    ensures forall k :: 0 <= k < |r| ==> r[k] == a + k
  {
    seq(if a < b then b - a else 0, k => a + k)
  }

  /** The subtree whose root has index `i` in the level-order sequence `s`. */
  function SubArbol(s: seq<int>, i: nat): Vertice
    decreases |s| - i
  {
    if i >= |s| then Nulo else V(SubArbol(s, 2 * i + 1), s[i], SubArbol(s, 2 * i + 2), 0, NINGUNO)
  }

  /** The linked complete tree with level-order sequence `s`. */
  function ArbolDe(s: seq<int>): Vertice
  {
    SubArbol(s, 0)
  }

  // ---------------------------------------------------------------------
  // The level-order sequence is the breadth-first order of the linked tree.

  /** A breadth-first queue that holds the subtrees at indices `a` up to
      (not including) `min(2a+1, |s|)`: the vertices after the first `a` in
      level order, up to the children of the last vertex visited. */
  ghost predicate ColaDeRango(s: seq<int>, a: nat, cola: seq<Posicion>)
  {
    a <= |s| && |cola| == Min(2 * a + 1, |s|) - a &&
    forall k :: 0 <= k < |cola| ==> cola[k].foco == SubArbol(s, a + k)
  }

  lemma ColaDeRangoVertices(s: seq<int>, a: nat, cola: seq<Posicion>)
    requires ColaDeRango(s, a, cola)
    ensures forall k :: 0 <= k < |cola| ==> cola[k].foco.V?
  {
    forall k | 0 <= k < |cola|
      ensures cola[k].foco.V?
    {
      assert a + k < |s|;
    }
  }

  /** One turn of the breadth-first walk: the first vertex leaves the queue
      and its children, the next indices, join it at the end. */
  lemma ColaDeRangoAvanza(s: seq<int>, a: nat, cola: seq<Posicion>)
    requires ColaDeRango(s, a, cola) && cola != []
    ensures cola[0].foco == V(SubArbol(s, 2 * a + 1), s[a], SubArbol(s, 2 * a + 2), 0, NINGUNO)
    ensures ColaDeRango(s, a + 1, cola[1..] + Hijos(cola[0]))
  {
    var n := |s|;
    var p := cola[0];
    assert p.foco == SubArbol(s, a);
    assert p.foco.izquierdo == SubArbol(s, 2 * a + 1) && p.foco.derecho == SubArbol(s, 2 * a + 2);
    var hs := Hijos(p);
    var resto := cola[1..] + hs;
    if 2 * a + 2 < n {
      assert SubArbol(s, 2 * a + 1).V? && SubArbol(s, 2 * a + 2).V?;
      assert hs == [BajaIzq(p), BajaDer(p)];
    } else if 2 * a + 1 < n {
      assert SubArbol(s, 2 * a + 1).V? && SubArbol(s, 2 * a + 2) == Nulo;
      assert hs == [BajaIzq(p)];
    } else {
      assert SubArbol(s, 2 * a + 1) == Nulo && SubArbol(s, 2 * a + 2) == Nulo;
      assert hs == [];
    }
    assert |resto| == Min(2 * (a + 1) + 1, n) - (a + 1);
    forall k | 0 <= k < |resto|
      ensures resto[k].foco == SubArbol(s, a + 1 + k)
    {
      if k < |cola| - 1 {
        assert resto[k] == cola[k + 1];
      } else if k == |cola| - 1 {
        assert resto[k] == hs[0];
      } else {
        assert resto[k] == hs[1];
      }
    }
  }

  /** One turn of the walk on such a queue: it visits `s[a]` and goes on
      with a queue of the same kind for `a + 1`, which holds fewer vertices. */
  lemma PasoNiveles(s: seq<int>, a: nat, cola: seq<Posicion>)
    requires ColaDeRango(s, a, cola) && cola != []
    ensures forall k :: 0 <= k < |cola| ==> cola[k].foco.V?
    ensures ColaDeRango(s, a + 1, cola[1..] + Hijos(cola[0]))
    ensures forall k :: 0 <= k < |cola[1..] + Hijos(cola[0])| ==> (cola[1..] + Hijos(cola[0]))[k].foco.V?
    ensures TamanoCola(cola[1..] + Hijos(cola[0])) < TamanoCola(cola)
    ensures ElementosDe(NivelesCola(cola)) == [s[a]] + ElementosDe(NivelesCola(cola[1..] + Hijos(cola[0])))
  {
    var p := cola[0];
    var resto := cola[1..] + Hijos(p);
    ColaDeRangoVertices(s, a, cola);
    ColaDeRangoAvanza(s, a, cola);
    ColaDeRangoVertices(s, a + 1, resto);
    TamanoColaConcat(cola[1..], Hijos(p));
    TamanoHijos(p);
    assert NivelesCola(cola) == [p] + NivelesCola(resto);
    ElementosDeConcat([p], NivelesCola(resto));
  }

  /** Such a queue visits the elements `s[a..]`. */
  lemma {:induction false} NivelesDeRango(s: seq<int>, a: nat, cola: seq<Posicion>)
    requires ColaDeRango(s, a, cola)
    ensures forall k :: 0 <= k < |cola| ==> cola[k].foco.V?
    ensures ElementosDe(NivelesCola(cola)) == s[a..]
    decreases TamanoCola(cola)
  {
    if cola != [] {
      PasoNiveles(s, a, cola);
      NivelesDeRango(s, a + 1, cola[1..] + Hijos(cola[0]));
      assert s[a..] == [s[a]] + s[a + 1..];
    } else {
      assert a == |s|;
    }
  }

  /** The breadth-first order of the linked tree is the level-order sequence. */
  lemma NivelesDeArbol(s: seq<int>)
    ensures ElementosDe(Niveles(ArbolDe(s))) == s
  {
    if s != [] {
      NivelesDeRango(s, 0, [Raiz(ArbolDe(s))]);
    }
  }

  // ---------------------------------------------------------------------
  // Heights.

  function Potencia2(k: nat): (p: nat)
    ensures p >= 1
  {
    if k == 0 then 1 else 2 * Potencia2(k - 1)
  }

  lemma {:induction false} Potencia2Monotona(a: nat, b: nat)
    requires a <= b
    ensures Potencia2(a) <= Potencia2(b)
    decreases b
  {
    if a < b {
      Potencia2Monotona(a, b - 1);
    }
  }

  /** At most one `k` has `2^k <= n < 2^(k+1)`. */
  lemma LogaritmoUnico(n: int, a: nat, b: nat)
    requires Potencia2(a) <= n < Potencia2(a + 1) && Potencia2(b) <= n < Potencia2(b + 1)
    ensures a == b
  {
    if a < b {
      Potencia2Monotona(a + 1, b);
    } else if b < a {
      Potencia2Monotona(b + 1, a);
    }
  }

  lemma MultiplicaMonotona(c: nat, x: nat, y: nat)
    requires x <= y
    ensures c * x <= c * y
  {
  }

  /** A vertex whose left subtree has height `hl` (and satisfies the
      bound below at index `l = 2i+1`) satisfies it at `i` with `hl + 1`. */
  lemma AlturaPaso(i: nat, n: int, hl: nat)
    requires (2 * i + 2) * Potencia2(hl) <= n < (2 * i + 2) * Potencia2(hl + 1)
    ensures (i + 1) * Potencia2(hl + 1) <= n < (i + 1) * Potencia2(hl + 2)
  {
    var p := Potencia2(hl);
    assert Potencia2(hl + 1) == 2 * p && Potencia2(hl + 2) == 4 * p;
    assert (2 * i + 2) * (2 * p) == (i + 1) * (4 * p);
    assert (2 * i + 2) * p == (i + 1) * (2 * p);
  }

  /** In a complete tree the right sibling at `l + 1` is never taller than
      the left one at `l`. */
  lemma DerechoNoMasAlto(l: nat, n: int, hl: nat, hr: nat)
    requires n < (l + 1) * Potencia2(hl + 1) && (l + 2) * Potencia2(hr) <= n
    ensures hr <= hl
  {
    if hr > hl {
      Potencia2Monotona(hl + 1, hr);
      MultiplicaMonotona(l + 2, Potencia2(hl + 1), Potencia2(hr));
      assert false;
    }
  }

  /** The subtree at index `i` of a complete tree with `n` vertices has
      height `h` with `(i+1) 2^h <= n < (i+1) 2^(h+1)`: its deepest level is
      the last one that still has a vertex below `i`. */
  lemma {:induction false} AlturaSubArbol(s: seq<int>, i: nat)
    requires i < |s|
    ensures Altura(SubArbol(s, i)) >= 0
    ensures (i + 1) * Potencia2(Altura(SubArbol(s, i))) <= |s| < (i + 1) * Potencia2(Altura(SubArbol(s, i)) + 1)
    decreases |s| - i
  {
    var n := |s|;
    var l := 2 * i + 1;
    var izq := SubArbol(s, l);
    var der := SubArbol(s, l + 1);
    assert SubArbol(s, i) == V(izq, s[i], der, 0, NINGUNO);
    if l >= n {
      assert izq == Nulo && der == Nulo;
      assert Altura(SubArbol(s, i)) == 0;
    } else {
      AlturaSubArbol(s, l);
      var hl := Altura(izq);
      if l + 1 < n {
        AlturaSubArbol(s, l + 1);
        DerechoNoMasAlto(l, n, hl, Altura(der));
      } else {
        assert der == Nulo;
      }
      assert Altura(SubArbol(s, i)) == hl + 1;
      AlturaPaso(i, n, hl);
    }
  }

  /** One turn of `log2`: halving `m` and doubling the power keeps `n`
      between the two products. */
  lemma MitadPaso(p: nat, m: int, n: int)
    requires p >= 1 && m >= 2 && p * m <= n < p * (m + 1)
    ensures (2 * p) * (m / 2) <= n < (2 * p) * (m / 2 + 1)
  {
    var q := m / 2;
    assert m == 2 * q || m == 2 * q + 1;
    assert (2 * p) * q == p * (2 * q);
    assert (2 * p) * (q + 1) == p * (2 * q + 2);
    MultiplicaMonotona(p, 2 * q, m);
    MultiplicaMonotona(p, m + 1, 2 * q + 2);
  }

  // ---------------------------------------------------------------------
  // The tree object.

  /** ArbolBinarioCompleto with its vertices as a level-order sequence. */
  class ArbolBinarioCompleto {
    var niveles: seq<int>
    var elementos: int

    /** The counter is the number of vertices. */
    predicate Valid()
      reads this
    {
      elementos == |niveles|
    }

    /** The empty tree. */
    constructor()
      ensures Valid() && niveles == []
    {
      niveles := [];
      elementos := 0;
    }

    /** agrega: a null element is rejected with IllegalArgumentException and
        nothing changes. Otherwise the breadth-first walk stops at the first
        vertex missing its left child, or failing that its right child, and
        hangs the new vertex there; that slot is the index right after the
        last vertex, so the level-order sequence gains the element at its end. */
    method Agrega(e: Option<int>) returns (r: Resultado<()>)
      requires Valid()
      modifies this
      ensures Valid()
      ensures e.None? ==> r == Falla(ArgumentoInvalido) && niveles == old(niveles) && elementos == old(elementos)
      ensures e.Some? ==> r == Exito(()) && niveles == old(niveles) + [e.value] && elementos == old(elementos) + 1
    {
      if e.None? {
        return Falla(ArgumentoInvalido);
      }
      var x := e.value;
      elementos := elementos + 1;
      if niveles == [] {
        niveles := [x];
        return Exito(());
      }
      var n := |niveles|;
      var cola := [0];
      ghost var a := 0;
      while cola != []
        invariant 2 * a < n && cola == Rango(a, 2 * a + 1)
        invariant niveles == old(niveles) && elementos == old(elementos) + 1
        decreases n - a
      {
        var v := cola[0];
        cola := cola[1..];
        if 2 * v + 1 < n {
          cola := cola + [2 * v + 1];
        } else {
          assert 2 * v + 1 == |niveles|;
          niveles := niveles + [x];
          return Exito(());
        }
        if 2 * v + 2 < n {
          cola := cola + [2 * v + 2];
        } else {
          assert 2 * v + 2 == |niveles|;
          niveles := niveles + [x];
          return Exito(());
        }
        a := a + 1;
      }
      assert false;
    }

    /** elimina: an element busca does not find changes nothing. Otherwise
        the counter drops; if no vertex remains the tree is emptied; else a
        full breadth-first walk finds the last vertex, whose element
        overwrites the found vertex's, and the last vertex is unlinked. */
    method Elimina(x: int)
      requires Valid()
      modifies this
      ensures Valid()
      ensures x !in old(niveles) ==> niveles == old(niveles) && elementos == old(elementos)
      ensures x in old(niveles) ==>
                PrimerIndice(old(niveles), x).Some? &&
                niveles == old(niveles)[PrimerIndice(old(niveles), x).value := old(niveles)[|old(niveles)| - 1]][..|old(niveles)| - 1] &&
                elementos == old(elementos) - 1 &&
                multiset(niveles) == multiset(old(niveles)) - multiset{x}
      ensures old(niveles) == [x] ==> niveles == [] && elementos == 0
    {
      var buscado := PrimerIndice(niveles, x);
      if buscado.None? {
        return;
      }
      var j := buscado.value;
      elementos := elementos - 1;
      if elementos == 0 {
        niveles := [];
        return;
      }
      var ultimo := UltimoEnNiveles(|niveles|);
      EliminaUnaCopia(niveles, j);
      niveles := niveles[j := niveles[ultimo]][..ultimo];
    }

    /** altura: -1 for the empty tree, otherwise `log2(elementos)`, which is
        the height of the linked complete tree. */
    method AlturaCompleta() returns (h: int)
      requires Valid()
      ensures niveles == [] ==> h == -1
      ensures niveles != [] ==> h >= 0 && Potencia2(h) <= elementos < Potencia2(h + 1)
      ensures h == AlturaArbol(ArbolDe(niveles))
    {
      if niveles == [] {
        return -1;
      }
      h := Log2(elementos);
      AlturaSubArbol(niveles, 0);
      LogaritmoUnico(elementos, h, Altura(ArbolDe(niveles)));
    }

    /** log2: how many times `n` can be shifted right (`n >> 1`, a division
        by two rounding down) before the result is no longer positive. For
        a positive `n` that is the `k` with `2^k <= n < 2^(k+1)`; for `n <= 1`
        it is 0. */
    method Log2(n: int) returns (contador: int)
      ensures n >= 1 ==> contador >= 0 && Potencia2(contador) <= n < Potencia2(contador + 1)
      ensures n <= 1 ==> contador == 0
    {
      var m := n;
      contador := 0;
      while m / 2 > 0
        invariant contador >= 0
        invariant n >= 1 ==> m >= 1 && Potencia2(contador) * m <= n < Potencia2(contador) * (m + 1)
        invariant n <= 1 ==> contador == 0 && m == n
        decreases m
      {
        MitadPaso(Potencia2(contador), m, n);
        m := m / 2;
        contador := contador + 1;
      }
    }

    /** bfs: the action is applied to every vertex once, in level order;
        nothing is done on an empty tree. The result is the sequence of
        vertices (as indices) the action saw. */
    method Bfs() returns (vistos: seq<int>)
      requires Valid()
      ensures vistos == Rango(0, |niveles|)
    {
      vistos := [];
      if niveles == [] {
        return;
      }
      var n := |niveles|;
      var cola := [0];
      while cola != []
        invariant |vistos| <= n && vistos == Rango(0, |vistos|)
        invariant cola == Rango(|vistos|, Min(2 * |vistos| + 1, n))
        decreases n - |vistos|
      {
        var v := cola[0];
        cola := cola[1..];
        vistos := vistos + [v];
        if 2 * v + 1 < n {
          cola := cola + [2 * v + 1];
        }
        if 2 * v + 2 < n {
          cola := cola + [2 * v + 2];
        }
      }
    }

    /** iterator: an iterator over the elements in level order. */
    method Iterator() returns (it: Iterador)
      requires Valid()
      ensures fresh(it) && it.Valid() && it.Pendientes() == niveles
    {
      it := new Iterador(niveles);
    }
  }

  /** The breadth-first walk of `elimina` over a complete tree with `n`
      vertices: the vertex it takes from the queue last is the last index. */
  method UltimoEnNiveles(n: int) returns (ultimo: int)
    requires n >= 1
    ensures ultimo == n - 1
  {
    ultimo := 0;
    var cola := [0];
    ghost var a := 0;
    while cola != []
      invariant a <= n && cola == Rango(a, Min(2 * a + 1, n))
      invariant a > 0 ==> ultimo == a - 1
      decreases n - a
    {
      ultimo := cola[0];
      cola := cola[1..];
      if 2 * ultimo + 1 < n {
        cola := cola + [2 * ultimo + 1];
      }
      if 2 * ultimo + 2 < n {
        cola := cola + [2 * ultimo + 2];
      }
      a := a + 1;
    }
  }

  /** The first index of `x` in a sequence: on a complete tree, the position
      in level order of the vertex `busca` returns (`BuscaEnCompleto`). */
  function PrimerIndice(s: seq<int>, x: int): (r: Option<nat>)
    ensures r.Some? <==> x in s
    ensures r.Some? ==> r.value < |s| && s[r.value] == x && x !in s[..r.value]
  {
    if s == [] then None
    else if s[0] == x then Some(0)
    else
      var r := PrimerIndice(s[1..], x);
      if r.None? then None
      else
        assert s[..r.value + 1] == [s[0]] + s[1..][..r.value];
        Some(r.value + 1)
  }

  /** The first handle holding `x` is the one at the first index of `x`
      among the handles' elements. */
  lemma {:induction false} PrimeroConEsPrimerIndice(ps: seq<Posicion>, x: int)
    requires forall i :: 0 <= i < |ps| ==> ps[i].foco.V?
    ensures |ElementosDe(ps)| == |ps|
    ensures PrimeroCon(ps, x) ==
              if PrimerIndice(ElementosDe(ps), x).Some? then Some(ps[PrimerIndice(ElementosDe(ps), x).value]) else None
  {
    if ps != [] {
      PrimeroConEsPrimerIndice(ps[1..], x);
      assert ElementosDe(ps)[1..] == ElementosDe(ps[1..]);
    }
  }

  /** The inherited breadth-first `busca` on a complete tree returns the
      vertex at the first index of `x` in the level order, and nothing when
      `x` is absent. */
  lemma BuscaEnCompleto(s: seq<int>, x: int)
    ensures |Niveles(ArbolDe(s))| == |s|
    ensures PrimeroCon(Niveles(ArbolDe(s)), x) ==
              if PrimerIndice(s, x).Some? then Some(Niveles(ArbolDe(s))[PrimerIndice(s, x).value]) else None
  {
    NivelesDeArbol(s);
    PrimeroConEsPrimerIndice(Niveles(ArbolDe(s)), x);
  }

  /** Deleting at index `j`: the last element overwrites it and the last
      slot goes, so exactly one copy of `s[j]` leaves the sequence. */
  lemma EliminaUnaCopia(s: seq<int>, j: nat)
    requires j < |s|
    ensures multiset(s[j := s[|s| - 1]][..|s| - 1]) == multiset(s) - multiset{s[j]}
    ensures |s[j := s[|s| - 1]][..|s| - 1]| == |s| - 1
  {
    var n := |s|;
    var t := s[j := s[n - 1]];
    assert t == t[..n - 1] + [t[n - 1]];
    assert s == s[..n - 1] + [s[n - 1]];
    if j == n - 1 {
      assert t[..n - 1] == s[..n - 1];
    } else {
      assert t[..n - 1] == s[..n - 1][j := s[n - 1]];
      assert s[..n - 1] == s[..j] + [s[j]] + s[j + 1..n - 1];
      assert s[..n - 1][j := s[n - 1]] == s[..j] + [s[n - 1]] + s[j + 1..n - 1];
    }
  }

  /** The breadth-first iterator of the complete tree. */
  class Iterador {
    const arbol: seq<int>
    var cola: seq<int>
    ghost var visitados: nat

    /** The queue holds the indices after the visited ones, up to the
        children of the last visited vertex. */
    ghost predicate Valid()
      reads this
    {
      visitados <= |arbol| && cola == Rango(visitados, Min(2 * visitados + 1, |arbol|))
    }

    /** The elements still to be returned. */
    ghost function Pendientes(): seq<int>
      reads this
      requires Valid()
    {
      arbol[visitados..]
    }

    /** The queue starts with the root, if there is one. */
    constructor(niveles: seq<int>)
      ensures Valid() && arbol == niveles && Pendientes() == niveles
    {
      arbol := niveles;
      cola := if niveles == [] then [] else [0];
      visitados := 0;
    }

    /** hasNext: the queue is not empty. */
    function HasNext(): (b: bool)
      reads this
      requires Valid()
      ensures b <==> Pendientes() != []
    {
      cola != []
    }

    /** next: NoSuchElementException once exhausted; otherwise the next
        element in level order, its vertex's children joining the queue. */
    method Next() returns (r: Resultado<int>)
      requires Valid()
      modifies this
      ensures Valid()
      ensures old(Pendientes()) == [] ==> r == Falla(NoHayElemento) && cola == old(cola)
      ensures old(Pendientes()) != [] ==> r == Exito(old(Pendientes())[0]) && Pendientes() == old(Pendientes())[1..]
    {
      if cola == [] {
        return Falla(NoHayElemento);
      }
      var v := cola[0];
      cola := cola[1..];
      if 2 * v + 1 < |arbol| {
        cola := cola + [2 * v + 1];
      }
      if 2 * v + 2 < |arbol| {
        cola := cola + [2 * v + 2];
      }
      visitados := visitados + 1;
      return Exito(arbol[v]);
    }
  }
}
