// ArbolBinarioOrdenado: the binary search tree. Insertion, search, deletion
// by the in-order predecessor, the two rotations, the depth-first traversals
// and the in-order iterator. Every update of the Java vertices is modelled on
// values: an operation takes a handle (a `Posicion`) and gives the handle of
// the vertex it produced, and the whole tree is `Arbol` of that handle.

module Ordenado {
  import opened Vertices
  import opened Posiciones
  import opened ArbolBinario

  // ---------------------------------------------------------------------
  // Order facts about in-order sequences.

  /** Every element of `s` is smaller than `x`. */
  predicate TodosMenores(s: seq<int>, x: int)
  {
    forall i :: 0 <= i < |s| ==> s[i] < x
  }

  /** Every element of `s` is at least `x`. */
  predicate TodosMayoresOIguales(s: seq<int>, x: int)
  {
    forall i :: 0 <= i < |s| ==> x <= s[i]
  }

  /** Every element of `s` is at most `x`. */
  predicate TodosMenoresOIguales(s: seq<int>, x: int)
  {
    forall i :: 0 <= i < |s| ==> s[i] <= x
  }

  /** A sequence with `e` in the middle is sorted exactly when both sides are
      sorted, the left side is at most `e` and the right side at least `e`. */
  lemma OrdenadaAlrededor(pre: seq<int>, e: int, post: seq<int>)
    ensures Ordenada(pre + [e] + post) <==>
              Ordenada(pre) && Ordenada(post) &&
              TodosMenoresOIguales(pre, e) && TodosMayoresOIguales(post, e)
  {
    var s := pre + [e] + post;
    assert forall i :: 0 <= i < |pre| ==> s[i] == pre[i];
    assert s[|pre|] == e;
    assert forall i :: 0 <= i < |post| ==> s[|pre| + 1 + i] == post[i];
    if Ordenada(pre) && Ordenada(post) && TodosMenoresOIguales(pre, e) && TodosMayoresOIguales(post, e) {
      forall i, j | 0 <= i < j < |s| ensures s[i] <= s[j] {
        if j < |pre| {
        } else if i < |pre| {
          assert s[i] <= e;
          if j > |pre| {
            assert s[j] == post[j - |pre| - 1];
          }
        } else if i > |pre| {
          assert s[i] == post[i - |pre| - 1] && s[j] == post[j - |pre| - 1];
        }
      }
    }
  }

  /** Both halves of a sorted sequence are sorted. */
  lemma OrdenadaPartes(a: seq<int>, b: seq<int>)
    requires Ordenada(a + b)
    ensures Ordenada(a) && Ordenada(b)
  {
    var s := a + b;
    assert forall i :: 0 <= i < |a| ==> s[i] == a[i];
    assert forall i :: 0 <= i < |b| ==> s[|a| + i] == b[i];
  }

  /** Removing one position keeps a sequence sorted. */
  lemma OrdenadaSinUno(s: seq<int>, j: int)
    requires 0 <= j < |s| && Ordenada(s)
    ensures Ordenada(s[..j] + s[j + 1..])
  {
    var t := s[..j] + s[j + 1..];
    assert forall i :: 0 <= i < j ==> t[i] == s[i];
    assert forall i :: j <= i < |t| ==> t[i] == s[i + 1];
  }

  /** The order invariant stated by the class: every element is at least the
      elements of its left subtree and at most those of its right subtree. */
  predicate EsABB(v: Vertice)
  {
    v.Nulo? ||
    (EsABB(v.izquierdo) && EsABB(v.derecho) &&
     (forall y :: y in Elementos(v.izquierdo) ==> y <= v.elemento) &&
     (forall y :: y in Elementos(v.derecho) ==> v.elemento <= y))
  }

  /** The order invariant holds exactly when the in-order sequence is sorted. */
  lemma {:induction false} EsABBSiOrdenada(v: Vertice)
    ensures EsABB(v) <==> Ordenada(InOrden(v))
  {
    if v.V? {
      var l, e, r := InOrden(v.izquierdo), v.elemento, InOrden(v.derecho);
      EsABBSiOrdenada(v.izquierdo);
      EsABBSiOrdenada(v.derecho);
      OrdenadaAlrededor(l, e, r);
      CotasElementos(v.izquierdo, e);
      CotasElementos(v.derecho, e);
    }
  }

  /** A bound on the elements of a subtree is a bound on its in-order sequence. */
  lemma CotasElementos(v: Vertice, e: int)
    ensures (forall y :: y in Elementos(v) ==> y <= e) <==> TodosMenoresOIguales(InOrden(v), e)
    ensures (forall y :: y in Elementos(v) ==> e <= y) <==> TodosMayoresOIguales(InOrden(v), e)
  {
    InOrdenPermuta(v);
    CotaSuperior(InOrden(v), e);
    CotaInferior(InOrden(v), e);
  }

  lemma CotaSuperior(s: seq<int>, e: int)
    ensures (forall y :: y in multiset(s) ==> y <= e) <==> TodosMenoresOIguales(s, e)
  {
    assert forall i :: 0 <= i < |s| ==> s[i] in multiset(s);
  }

  lemma CotaInferior(s: seq<int>, e: int)
    ensures (forall y :: y in multiset(s) ==> e <= y) <==> TodosMayoresOIguales(s, e)
  {
    assert forall i :: 0 <= i < |s| ==> s[i] in multiset(s);
  }

  // ---------------------------------------------------------------------
  // Insertion.

  /** The frames `ms` continue those of `ns`: `ns` is a suffix of `ms`. */
  predicate Extiende(ms: seq<Marco>, ns: seq<Marco>)
  {
    |ns| <= |ms| && ms[|ms| - |ns|..] == ns
  }

  /** agrega(actual, nuevo): descend from `p`, to the left when the new
      element is at most the vertex's (ties go left) and to the right
      otherwise, and hang the new leaf in the first empty slot. The result is
      the handle of the new leaf: it sits in what was an empty slot of the
      tree and below `p`. */
  function InsertaEn(p: Posicion, x: int): (q: Posicion)
    requires p.foco.V?
    ensures q.foco == NuevoVertice(x)
    ensures Tapa(Nulo, q.marcos) == Arbol(p)
    ensures Extiende(q.marcos, p.marcos) && |q.marcos| > |p.marcos|
    decreases Tamano(p.foco)
  {
    var v := p.foco;
    if x <= v.elemento then
      if v.izquierdo.Nulo? then
        var q := BajaIzq(Cambia(p, v.(izquierdo := NuevoVertice(x))));
        assert q.marcos[1..] == p.marcos;
        q
      else
        var q := InsertaEn(BajaIzq(p), x);
        assert BajaIzq(p).marcos[1..] == p.marcos;
        q
    else
      if v.derecho.Nulo? then
        var q := BajaDer(Cambia(p, v.(derecho := NuevoVertice(x))));
        assert q.marcos[1..] == p.marcos;
        q
      else
        var q := InsertaEn(BajaDer(p), x);
        assert BajaDer(p).marcos[1..] == p.marcos;
        q
  }

  /** The in-order sequence of a tree around the vertex at a position. */
  lemma InOrdenEn(p: Posicion)
    requires p.foco.V?
    ensures InOrden(Arbol(p)) ==
              (Antes(p.marcos) + InOrden(p.foco.izquierdo)) + [p.foco.elemento] +
              (InOrden(p.foco.derecho) + Despues(p.marcos))
  {
    InOrdenTapa(p.foco, p.marcos);
  }

  /** The bounds of `InsertaEnCotas` survive one step to the left. */
  lemma CotasBajaIzq(p: Posicion, x: int)
    requires p.foco.V? && Ordenada(InOrden(Arbol(p))) && x <= p.foco.elemento
    requires TodosMenores(Antes(p.marcos), x) && TodosMayoresOIguales(Despues(p.marcos), x)
    ensures TodosMenores(Antes(BajaIzq(p).marcos), x) && TodosMayoresOIguales(Despues(BajaIzq(p).marcos), x)
  {
    var v := p.foco;
    var a, d := Antes(p.marcos), Despues(p.marcos);
    var l, e, r := InOrden(v.izquierdo), v.elemento, InOrden(v.derecho);
    assert TodosMayoresOIguales(r + d, e) by {
      InOrdenEn(p);
      OrdenadaAlrededor(a + l, e, r + d);
    }
    var ms := BajaIzq(p).marcos;
    assert ms[1..] == p.marcos;
    var d2 := [e] + (r + d);
    assert Despues(ms) == d2;
    forall i | 0 <= i < |d2| ensures x <= d2[i] {
      if i > 0 {
        assert d2[i] == (r + d)[i - 1];
      }
    }
  }

  /** The bounds of `InsertaEnCotas` survive one step to the right. */
  lemma CotasBajaDer(p: Posicion, x: int)
    requires p.foco.V? && Ordenada(InOrden(Arbol(p))) && p.foco.elemento < x
    requires TodosMenores(Antes(p.marcos), x) && TodosMayoresOIguales(Despues(p.marcos), x)
    ensures TodosMenores(Antes(BajaDer(p).marcos), x) && TodosMayoresOIguales(Despues(BajaDer(p).marcos), x)
  {
    var v := p.foco;
    var a, d := Antes(p.marcos), Despues(p.marcos);
    var l, e, r := InOrden(v.izquierdo), v.elemento, InOrden(v.derecho);
    assert TodosMenoresOIguales(a + l, e) by {
      InOrdenEn(p);
      OrdenadaAlrededor(a + l, e, r + d);
    }
    var ms := BajaDer(p).marcos;
    assert ms[1..] == p.marcos;
    var a2 := (a + l) + [e];
    assert Antes(ms) == a2;
    forall i | 0 <= i < |a2| ensures a2[i] < x {
      if i < |a + l| {
        assert a2[i] == (a + l)[i];
      }
    }
  }

  /** On a sorted tree, every element the ancestors place before the new
      leaf is smaller than it and every one placed after it is at least it,
      as long as this already held for the frames above the starting point. */
  lemma {:induction false} InsertaEnCotas(p: Posicion, x: int)
    requires p.foco.V? && Ordenada(InOrden(Arbol(p)))
    requires TodosMenores(Antes(p.marcos), x) && TodosMayoresOIguales(Despues(p.marcos), x)
    ensures TodosMenores(Antes(InsertaEn(p, x).marcos), x)
    ensures TodosMayoresOIguales(Despues(InsertaEn(p, x).marcos), x)
    decreases Tamano(p.foco)
  {
    var v := p.foco;
    if x <= v.elemento {
      CotasBajaIzq(p, x);
      if v.izquierdo.V? {
        InsertaEnCotas(BajaIzq(p), x);
      }
    } else {
      CotasBajaDer(p, x);
      if v.derecho.V? {
        InsertaEnCotas(BajaDer(p), x);
      }
    }
  }

  /** agrega(elemento) on the vertices: the new leaf becomes the root of an
      empty tree, otherwise it is inserted from the root. */
  function Inserta(t: Vertice, x: int): (q: Posicion)
    ensures q.foco == NuevoVertice(x) && Tapa(Nulo, q.marcos) == t
    ensures t.Nulo? ==> q == Raiz(NuevoVertice(x))
  {
    if t.Nulo? then Raiz(NuevoVertice(x)) else InsertaEn(Raiz(t), x)
  }

  /** A leaf in an empty slot: the in-order sequence and size of the tree
      with the slot empty and with the leaf hung there. */
  lemma Hueco(ms: seq<Marco>, x: int)
    ensures InOrden(Tapa(Nulo, ms)) == Antes(ms) + Despues(ms)
    ensures InOrden(Tapa(NuevoVertice(x), ms)) == Antes(ms) + [x] + Despues(ms)
    ensures Tamano(Tapa(NuevoVertice(x), ms)) == Tamano(Tapa(Nulo, ms)) + 1
  {
    InOrdenTapa(Nulo, ms);
    InOrdenTapa(NuevoVertice(x), ms);
    TamanoTapa(Nulo, ms);
    TamanoTapa(NuevoVertice(x), ms);
  }

  /** Insertion fills one empty slot with the new leaf: the old in-order
      sequence is split around that slot and the element goes in between; the
      tree gains exactly one vertex and one copy of the element. */
  lemma InsertaPartes(t: Vertice, x: int)
    ensures var q := Inserta(t, x);
      InOrden(t) == Antes(q.marcos) + Despues(q.marcos) &&
      InOrden(Arbol(q)) == Antes(q.marcos) + [x] + Despues(q.marcos)
    ensures var q := Inserta(t, x);
      multiset(InOrden(Arbol(q))) == multiset(InOrden(t)) + multiset{x} &&
      Tamano(Arbol(q)) == Tamano(t) + 1
  {
    var q := Inserta(t, x);
    Hueco(q.marcos, x);
  }

  /** Inserting into a sorted tree puts the new element right before the
      first element that is at least it (so ties go left), and the in-order
      sequence stays sorted. */
  lemma InsertaOrdenado(t: Vertice, x: int)
    requires Ordenada(InOrden(t))
    ensures var q := Inserta(t, x);
      TodosMenores(Antes(q.marcos), x) && TodosMayoresOIguales(Despues(q.marcos), x)
    ensures Ordenada(InOrden(Arbol(Inserta(t, x))))
  {
    var q := Inserta(t, x);
    var a, d := Antes(q.marcos), Despues(q.marcos);
    InsertaPartes(t, x);
    if t.V? {
      InsertaEnCotas(Raiz(t), x);
    }
    OrdenadaPartes(a, d);
    OrdenadaAlrededor(a, x, d);
  }

  // ---------------------------------------------------------------------
  // Search.

  /** busca(actual, elemento): stop at a vertex holding the element;
      otherwise descend to the left when the element is smaller and to the
      right when it is larger, and give up (null) when that child is missing.
      A handle found lies in the subtree and holds the element. */
  function BuscaEn(p: Posicion, x: int): (r: Option<Posicion>)
    requires p.foco.V?
    ensures r.Some? ==> r.value.foco.V? && r.value.foco.elemento == x && Debajo(r.value, p)
    decreases Tamano(p.foco)
  {
    var v := p.foco;
    if x == v.elemento then
      DebajoReflexiva(p);
      Some(p)
    else if x < v.elemento && v.izquierdo.V? then
      var r := BuscaEn(BajaIzq(p), x);
      if r.Some? then DebajoSube(r.value, BajaIzq(p)); r else r
    else if x > v.elemento && v.derecho.V? then
      var r := BuscaEn(BajaDer(p), x);
      if r.Some? then DebajoSube(r.value, BajaDer(p)); r else r
    else None
  }

  /** On a sorted subtree the search succeeds exactly when the element is there. */
  lemma {:induction false} BuscaEnCompleta(p: Posicion, x: int)
    requires p.foco.V?
    ensures Ordenada(InOrden(p.foco)) ==> (BuscaEn(p, x).Some? <==> x in InOrden(p.foco))
    decreases Tamano(p.foco)
  {
    var v := p.foco;
    var l, e, r := InOrden(v.izquierdo), v.elemento, InOrden(v.derecho);
    if Ordenada(InOrden(v)) {
      OrdenadaAlrededor(l, e, r);
      if x < e {
        assert x !in r;
        if v.izquierdo.V? {
          BuscaEnCompleta(BajaIzq(p), x);
        }
      } else if x > e {
        assert x !in l;
        if v.derecho.V? {
          BuscaEnCompleta(BajaDer(p), x);
        }
      }
    }
  }

  /** busca(elemento): null on an empty tree, otherwise the search from the
      root. On a sorted tree it finds a vertex of the tree holding the element
      exactly when the element is stored. */
  function BuscaOrdenado(t: Vertice, x: int): (r: Option<Posicion>)
    ensures r.Some? ==> r.value.foco.V? && r.value.foco.elemento == x && Arbol(r.value) == t
    ensures Ordenada(InOrden(t)) ==> (r.Some? <==> x in InOrden(t))
  {
    if t.Nulo? then None
    else
      var r := BuscaEn(Raiz(t), x);
      BuscaEnCompleta(Raiz(t), x);
      if r.Some? then DebajoMismoArbol(r.value, Raiz(t)); r else r
  }

  // ---------------------------------------------------------------------
  // Deletion.

  /** The in-order index of the vertex at a position. */
  function Indice(p: Posicion): (j: nat)
    requires p.foco.V?
    ensures j < |InOrden(Arbol(p))| && InOrden(Arbol(p))[j] == p.foco.elemento
  {
    InOrdenEn(p);
    |Antes(p.marcos)| + |InOrden(p.foco.izquierdo)|
  }

  /** Every frame of `ms` is a step to the right. */
  predicate SoloDerechas(ms: seq<Marco>)
  {
    forall i :: 0 <= i < |ms| ==> ms[i].MarcoDer?
  }

  /** Steps to the right place nothing after the subtree they lead to. */
  lemma {:induction false} DespuesSoloDerechas(ms: seq<Marco>)
    requires SoloDerechas(ms)
    ensures Despues(ms) == []
    decreases |ms|
  {
    if ms != [] {
      DespuesSoloDerechas(ms[1..]);
    }
  }

  /** maximoSubArbol: follow right children to the end. The vertex reached
      has no right child and is the last of the subtree in-order (its maximum
      when the subtree is sorted). */
  function MaximoSubArbol(p: Posicion): (r: Posicion)
    requires p.foco.V?
    ensures r.foco.V? && r.foco.derecho.Nulo?
    ensures Debajo(r, p) && SoloDerechas(Camino(r, p))
    ensures InOrden(p.foco) == Antes(Camino(r, p)) + InOrden(r.foco.izquierdo) + [r.foco.elemento]
    decreases Tamano(p.foco)
  {
    if p.foco.derecho.Nulo? then
      DebajoReflexiva(p);
      assert Camino(p, p) == [];
      p
    else
      var q := BajaDer(p);
      var r := MaximoSubArbol(q);
      DebajoSube(r, q);
      assert Sube(q) == p;
      MaximoCamino(r, p);
      r
  }

  /** The in-order sequence of a subtree whose last vertex is reached by right steps. */
  lemma MaximoCamino(r: Posicion, p: Posicion)
    requires r.foco.V? && r.foco.derecho.Nulo? && Debajo(r, p) && SoloDerechas(Camino(r, p))
    ensures InOrden(p.foco) == Antes(Camino(r, p)) + InOrden(r.foco.izquierdo) + [r.foco.elemento]
  {
    InOrdenTapa(r.foco, Camino(r, p));
    DespuesSoloDerechas(Camino(r, p));
  }

  /** On a sorted subtree the vertex of maximoSubArbol holds the largest element. */
  lemma MaximoEsMaximo(p: Posicion)
    requires p.foco.V? && Ordenada(InOrden(p.foco))
    ensures TodosMenoresOIguales(InOrden(p.foco), MaximoSubArbol(p).foco.elemento)
  {
    var r := MaximoSubArbol(p);
    var s := InOrden(p.foco);
    assert s[|s| - 1] == r.foco.elemento;
  }

  /** intercambiaEliminable: copy into a vertex with two children the element
      of the maximum of its left subtree, its in-order predecessor, and return
      the predecessor's handle. That vertex has no right child, the in-order
      sequence has the predecessor's element in place of the vertex's, and the
      predecessor sits right before the vertex in-order. */
  function IntercambiaEliminable(p: Posicion): (w: Posicion)
    requires p.foco.V? && p.foco.izquierdo.V? && p.foco.derecho.V?
    ensures w.foco.V? && w.foco.derecho.Nulo?
    ensures Indice(p) > 0 && Indice(w) == Indice(p) - 1
    ensures InOrden(Arbol(w)) == InOrden(Arbol(p))[Indice(p) := InOrden(Arbol(p))[Indice(p) - 1]]
  {
    var q := BajaIzq(p);
    var m := MaximoSubArbol(q);
    var k := |m.marcos| - |p.marcos| - 1;
    var w := Posicion(m.foco, m.marcos[k := MarcoIzq(m.foco.elemento, p.foco.derecho, p.foco.altura, p.foco.color)]);
    PredecesorCopiado(p, m, w);
    w
  }

  /** The proof behind `IntercambiaEliminable`. */
  lemma PredecesorCopiado(p: Posicion, m: Posicion, w: Posicion)
    requires p.foco.V? && p.foco.izquierdo.V? && p.foco.derecho.V?
    requires m == MaximoSubArbol(BajaIzq(p))
    requires w == Posicion(m.foco, m.marcos[|m.marcos| - |p.marcos| - 1 :=
                             MarcoIzq(m.foco.elemento, p.foco.derecho, p.foco.altura, p.foco.color)])
    ensures w.foco.V? && w.foco.derecho.Nulo?
    ensures Indice(p) > 0 && Indice(w) == Indice(p) - 1
    ensures InOrden(Arbol(w)) == InOrden(Arbol(p))[Indice(p) := InOrden(Arbol(p))[Indice(p) - 1]]
  {
    var v := p.foco;
    var c := Camino(m, BajaIzq(p));
    var v2 := v.(elemento := m.foco.elemento);
    PredecesorArbol(p, m, w);
    InOrdenEn(p);
    InOrdenEn(Posicion(v2, p.marcos));
    PredecesorSeq(InOrden(Arbol(p)), InOrden(Arbol(w)), Antes(p.marcos), InOrden(v.izquierdo),
                  v.elemento, m.foco.elemento, InOrden(v.derecho) + Despues(p.marcos),
                  Antes(c), InOrden(m.foco.izquierdo), Antes(w.marcos));
  }

  /** The handle built by `IntercambiaEliminable` belongs to the tree with the
      vertex's element replaced, and the ancestors it has are those of the
      vertex followed by the path to the predecessor. */
  lemma PredecesorArbol(p: Posicion, m: Posicion, w: Posicion)
    requires p.foco.V? && p.foco.izquierdo.V?
    requires m == MaximoSubArbol(BajaIzq(p))
    requires w == Posicion(m.foco, m.marcos[|m.marcos| - |p.marcos| - 1 :=
                             MarcoIzq(m.foco.elemento, p.foco.derecho, p.foco.altura, p.foco.color)])
    ensures Arbol(w) == Tapa(p.foco.(elemento := m.foco.elemento), p.marcos)
    ensures Antes(w.marcos) == Antes(p.marcos) + Antes(Camino(m, BajaIzq(p)))
  {
    var q := BajaIzq(p);
    var v := p.foco;
    var c := Camino(m, q);
    var f := MarcoIzq(m.foco.elemento, v.derecho, v.altura, v.color);
    var pm := p.marcos;
    CambiaEnMedio(m.marcos, c, q.marcos[0], f, pm);
    TapaConcat(m.foco, c, [f] + pm);
    AntesConcat(c, [f] + pm);
  }

  /** Replacing the frame right after a prefix `c`. */
  lemma CambiaEnMedio(ms: seq<Marco>, c: seq<Marco>, g: Marco, f: Marco, pm: seq<Marco>)
    requires |c| <= |ms| && c == ms[..|c|] && ms[|c|..] == [g] + pm
    ensures ms[|c| := f] == c + ([f] + pm)
    ensures ([f] + pm)[0] == f && ([f] + pm)[1..] == pm
  {
    assert ms == ms[..|c|] + ms[|c|..];
  }

  /** The sequence arithmetic behind `PredecesorCopiado`: `l` is the left
      subtree's in-order sequence, ending in its maximum `x`. */
  lemma PredecesorSeq(s: seq<int>, t: seq<int>, a: seq<int>, l: seq<int>, e: int, x: int,
                      rd: seq<int>, ca: seq<int>, li: seq<int>, aw: seq<int>)
    requires s == (a + l) + [e] + rd
    requires t == (a + l) + [x] + rd
    requires l == ca + li + [x]
    requires aw == a + ca
    ensures 0 < |a| + |l| < |s|
    ensures |aw| + |li| == |a| + |l| - 1
    ensures t == s[|a| + |l| := s[|a| + |l| - 1]]
  {
    assert s[|a| + |l| - 1] == l[|l| - 1] == x;
  }

  /** eliminaVertice: splice out a vertex with at most one child, moving
      that child (or null) into its place. The result is the handle of the
      moved child; the in-order sequence loses exactly the vertex's element. */
  function EliminaVertice(z: Posicion): (u: Posicion)
    requires z.foco.V? && (z.foco.izquierdo.Nulo? || z.foco.derecho.Nulo?)
    ensures u.marcos == z.marcos
    ensures InOrden(u.foco) == InOrden(z.foco.izquierdo) + InOrden(z.foco.derecho)
    ensures InOrden(Arbol(u)) == InOrden(Arbol(z))[..Indice(z)] + InOrden(Arbol(z))[Indice(z) + 1..]
  {
    var hijo := if z.foco.izquierdo.V? then z.foco.izquierdo else z.foco.derecho;
    var u := Cambia(z, hijo);
    SinElVertice(z, u);
    u
  }

  /** The proof behind `EliminaVertice`. */
  lemma SinElVertice(z: Posicion, u: Posicion)
    requires z.foco.V? && u.marcos == z.marcos
    requires InOrden(u.foco) == InOrden(z.foco.izquierdo) + InOrden(z.foco.derecho)
    ensures InOrden(Arbol(u)) == InOrden(Arbol(z))[..Indice(z)] + InOrden(Arbol(z))[Indice(z) + 1..]
  {
    InOrdenEn(z);
    InOrdenTapa(u.foco, u.marcos);
    SinUnoSeq(InOrden(Arbol(z)), InOrden(Arbol(u)), Antes(z.marcos), InOrden(z.foco.izquierdo),
              z.foco.elemento, InOrden(z.foco.derecho), Despues(z.marcos));
  }

  /** The sequence arithmetic behind `SinElVertice`. */
  lemma SinUnoSeq(s: seq<int>, t: seq<int>, a: seq<int>, l: seq<int>, e: int, r: seq<int>, d: seq<int>)
    requires s == (a + l) + [e] + (r + d)
    requires t == a + (l + r) + d
    ensures t == s[..|a| + |l|] + s[|a| + |l| + 1..]
  {
    assert s[..|a| + |l|] == a + l;
    assert s[|a| + |l| + 1..] == r + d;
  }

  /** elimina, once busca has found the vertex: with two children, first swap
      in the in-order predecessor, then splice out. The in-order sequence
      loses exactly the element at the found vertex's index. */
  function EliminaEn(p: Posicion): (u: Posicion)
    requires p.foco.V?
    ensures InOrden(Arbol(u)) == InOrden(Arbol(p))[..Indice(p)] + InOrden(Arbol(p))[Indice(p) + 1..]
  {
    if p.foco.izquierdo.V? && p.foco.derecho.V? then
      var w := IntercambiaEliminable(p);
      var u := EliminaVertice(w);
      QuitarPredecesor(InOrden(Arbol(p)), InOrden(Arbol(w)), InOrden(Arbol(u)), Indice(p));
      u
    else
      EliminaVertice(p)
  }

  /** Overwriting position `j` with its predecessor and then dropping the
      predecessor drops position `j`. */
  lemma QuitarPredecesor(s: seq<int>, t: seq<int>, r: seq<int>, j: int)
    requires 0 < j < |s| && t == s[j := s[j - 1]]
    requires r == t[..j - 1] + t[j..]
    ensures r == s[..j] + s[j + 1..]
  {
    assert t[..j - 1] == s[..j - 1];
    assert t[j..] == [s[j - 1]] + s[j + 1..];
    assert s[..j] == s[..j - 1] + [s[j - 1]];
  }

  /** Deleting at a vertex of a sorted tree keeps it sorted and removes
      exactly one copy of that vertex's element. */
  lemma EliminaEnOrdenado(p: Posicion)
    requires p.foco.V? && Ordenada(InOrden(Arbol(p)))
    ensures Ordenada(InOrden(Arbol(EliminaEn(p))))
    ensures multiset(InOrden(Arbol(EliminaEn(p)))) == multiset(InOrden(Arbol(p))) - multiset{p.foco.elemento}
    ensures |InOrden(Arbol(EliminaEn(p)))| == |InOrden(Arbol(p))| - 1
  {
    var s := InOrden(Arbol(p));
    var j := Indice(p);
    OrdenadaSinUno(s, j);
    assert s == s[..j] + [s[j]] + s[j + 1..];
  }

  // ---------------------------------------------------------------------
  // Rotations.

  /** giraDerecha on a vertex with a left child: the left child becomes the
      root of the subtree and the vertex its right child, taking over the
      child's old right subtree. Every vertex keeps its own cached height
      and color. The in-order sequence does not change. */
  function GiraDerechaEn(p: Posicion): (q: Posicion)
    requires p.foco.V? && p.foco.izquierdo.V?
    ensures q.marcos == p.marcos && q.foco.V? && q.foco.derecho.V?
    ensures q.foco.elemento == p.foco.izquierdo.elemento && q.foco.derecho.elemento == p.foco.elemento
    ensures InOrden(q.foco) == InOrden(p.foco) && InOrden(Arbol(q)) == InOrden(Arbol(p))
  {
    var v := p.foco;
    var i := v.izquierdo;
    var f := V(i.izquierdo, i.elemento, V(i.derecho, v.elemento, v.derecho, v.altura, v.color), i.altura, i.color);
    MismoInOrdenTapa(f, v, p.marcos);
    Cambia(p, f)
  }

  /** giraIzquierda on a vertex with a right child: the mirror image of `GiraDerechaEn`. */
  function GiraIzquierdaEn(p: Posicion): (q: Posicion)
    requires p.foco.V? && p.foco.derecho.V?
    ensures q.marcos == p.marcos && q.foco.V? && q.foco.izquierdo.V?
    ensures q.foco.elemento == p.foco.derecho.elemento && q.foco.izquierdo.elemento == p.foco.elemento
    ensures InOrden(q.foco) == InOrden(p.foco) && InOrden(Arbol(q)) == InOrden(Arbol(p))
  {
    var v := p.foco;
    var d := v.derecho;
    var f := V(V(v.izquierdo, v.elemento, d.izquierdo, v.altura, v.color), d.elemento, d.derecho, d.altura, d.color);
    MismoInOrdenTapa(f, v, p.marcos);
    Cambia(p, f)
  }

  /** The two rotations undo each other. */
  lemma GirosInversos(p: Posicion)
    ensures p.foco.V? && p.foco.izquierdo.V? ==> GiraIzquierdaEn(GiraDerechaEn(p)) == p
    ensures p.foco.V? && p.foco.derecho.V? ==> GiraDerechaEn(GiraIzquierdaEn(p)) == p
  {
  }

  // ---------------------------------------------------------------------
  // Depth-first traversals: the sequence of vertices the action visits.

  /** Every handle of `vs` is on a vertex of the tree `t`. */
  predicate EnArbol(vs: seq<Posicion>, t: Vertice)
  {
    forall i :: 0 <= i < |vs| ==> vs[i].foco.V? && Arbol(vs[i]) == t
  }

  lemma EnArbolConcat(a: seq<Posicion>, b: seq<Posicion>, t: Vertice)
    requires EnArbol(a, t) && EnArbol(b, t)
    ensures EnArbol(a + b, t)
  {
    assert forall i :: 0 <= i < |a| ==> (a + b)[i] == a[i];
    assert forall i :: |a| <= i < |a + b| ==> (a + b)[i] == b[i - |a|];
  }

  /** Joining three visit sequences of one tree. */
  lemma Visita(a: seq<Posicion>, b: seq<Posicion>, c: seq<Posicion>, t: Vertice)
    requires EnArbol(a, t) && EnArbol(b, t) && EnArbol(c, t)
    ensures EnArbol(a + b + c, t)
    ensures ElementosDe(a + b + c) == ElementosDe(a) + ElementosDe(b) + ElementosDe(c)
  {
    EnArbolConcat(a, b, t);
    EnArbolConcat(a + b, c, t);
    ElementosDeConcat(a, b);
    ElementosDeConcat(a + b, c);
  }

  /** dfsPreOrder: the vertex, then its left subtree, then its right subtree. */
  function DfsPreOrden(p: Posicion): (vs: seq<Posicion>)
    ensures EnArbol(vs, Arbol(p))
    ensures ElementosDe(vs) == PreOrden(p.foco)
    decreases p.foco
  {
    if p.foco.Nulo? then []
    else
      var l := DfsPreOrden(BajaIzq(p));
      var r := DfsPreOrden(BajaDer(p));
      Visita([p], l, r, Arbol(p));
      [p] + l + r
  }

  /** dfsInOrder: the left subtree, then the vertex, then the right subtree. */
  function DfsInOrden(p: Posicion): (vs: seq<Posicion>)
    ensures EnArbol(vs, Arbol(p))
    ensures ElementosDe(vs) == InOrden(p.foco)
    decreases p.foco
  {
    if p.foco.Nulo? then []
    else
      var l := DfsInOrden(BajaIzq(p));
      var r := DfsInOrden(BajaDer(p));
      Visita(l, [p], r, Arbol(p));
      l + [p] + r
  }

  /** dfsPostOrder: the left subtree, then the right subtree, then the vertex. */
  function DfsPostOrden(p: Posicion): (vs: seq<Posicion>)
    ensures EnArbol(vs, Arbol(p))
    ensures ElementosDe(vs) == PostOrden(p.foco)
    decreases p.foco
  {
    if p.foco.Nulo? then []
    else
      var l := DfsPostOrden(BajaIzq(p));
      var r := DfsPostOrden(BajaDer(p));
      Visita(l, r, [p], Arbol(p));
      l + r + [p]
  }

  /** Each traversal visits every vertex exactly once. */
  lemma DfsVisitaTodo(t: Vertice)
    ensures multiset(ElementosDe(DfsPreOrden(Raiz(t)))) == Elementos(t)
    ensures multiset(ElementosDe(DfsInOrden(Raiz(t)))) == Elementos(t)
    ensures multiset(ElementosDe(DfsPostOrden(Raiz(t)))) == Elementos(t)
    ensures |DfsPreOrden(Raiz(t))| == |DfsInOrden(Raiz(t))| == |DfsPostOrden(Raiz(t))| == Tamano(t)
  {
    RecorridosPermutan(t);
    LongitudElementosDe(DfsPreOrden(Raiz(t)));
    LongitudElementosDe(DfsInOrden(Raiz(t)));
    LongitudElementosDe(DfsPostOrden(Raiz(t)));
  }

  lemma {:induction false} LongitudElementosDe(ps: seq<Posicion>)
    requires forall i :: 0 <= i < |ps| ==> ps[i].foco.V?
    ensures |ElementosDe(ps)| == |ps|
    decreases |ps|
  {
    if ps != [] {
      LongitudElementosDe(ps[1..]);
    }
  }

  /** Two subtrees with the same in-order sequence have the same size. */
  lemma MismoInOrdenMismoTamano(a: Vertice, b: Vertice)
    requires InOrden(a) == InOrden(b)
    ensures Tamano(a) == Tamano(b)
  {
    RecorridosPermutan(a);
    RecorridosPermutan(b);
  }

  /** Removing a present element from a sorted tree: busca finds it, and the
      tree without that vertex is sorted, one smaller and one copy poorer. */
  lemma EliminaDeArbol(t: Vertice, x: int)
    requires Ordenada(InOrden(t)) && x in InOrden(t)
    ensures BuscaOrdenado(t, x).Some?
    ensures Ordenada(InOrden(Arbol(EliminaEn(BuscaOrdenado(t, x).value))))
    ensures Tamano(Arbol(EliminaEn(BuscaOrdenado(t, x).value))) == Tamano(t) - 1
    ensures multiset(InOrden(Arbol(EliminaEn(BuscaOrdenado(t, x).value)))) == multiset(InOrden(t)) - multiset{x}
  {
    var p := BuscaOrdenado(t, x).value;
    var u := Arbol(EliminaEn(p));
    EliminaEnOrdenado(p);
    RecorridosPermutan(t);
    RecorridosPermutan(u);
  }

  // ---------------------------------------------------------------------
  // The in-order iterator.

  /** The elements still to come from a stack of vertices (top first): each
      vertex, then its right subtree, in order. */
  function Pendientes(pila: seq<Posicion>): seq<int>
  {
    if pila == [] then []
    else (if pila[0].foco.V? then [pila[0].foco.elemento] + InOrden(pila[0].foco.derecho) else []) +
         Pendientes(pila[1..])
  }

  /** Popping a real vertex: its element comes first, then its right subtree,
      then what the rest of the stack holds. */
  lemma PendientesTope(pila: seq<Posicion>)
    requires pila != [] && pila[0].foco.V?
    ensures Pendientes(pila) == [pila[0].foco.elemento] + (InOrden(pila[0].foco.derecho) + Pendientes(pila[1..]))
    ensures Pendientes(pila) != []
  {
  }

  /** Iterador: a stack of vertices whose left branches have been pushed. */
  class Iterador {
    var pila: seq<Posicion>

    /** Every vertex on the stack is a real vertex. */
    predicate Valid()
      reads this
    {
      forall i :: 0 <= i < |pila| ==> pila[i].foco.V?
    }

    /** The iterator of a tree: push the left branch of the root. What remains
        to be visited is the whole in-order sequence. */
    constructor(raiz: Vertice)
      ensures Valid() && Pendientes(pila) == InOrden(raiz)
    {
      pila := [];
      new;
      AgregaRamaIzquierda(Raiz(raiz));
    }

    /** agregaRamaIzquierda: push a vertex, then its left child, and so on
        down the left branch. The subtree's in-order sequence is put in front
        of what was pending. */
    method AgregaRamaIzquierda(actual: Posicion)
      requires Valid()
      modifies this
      ensures Valid()
      ensures Pendientes(pila) == InOrden(actual.foco) + old(Pendientes(pila))
      decreases actual.foco
    {
      if actual.foco.Nulo? {
        return;
      }
      ghost var antes := Pendientes(pila);
      pila := [actual] + pila;
      assert pila[1..] == old(pila);
      AgregaRamaIzquierda(BajaIzq(actual));
    }

    /** hasNext: the stack is not empty, that is, something is still pending. */
    function HasNext(): (b: bool)
      reads this
      requires Valid()
      ensures b <==> Pendientes(pila) != []
    {
      pila != []
    }

    /** next: pop a vertex, push the left branch of its right subtree, and
        return its element: the first pending element. On an empty stack the
        pop fails with NoSuchElementException. */
    method Next() returns (r: Resultado<int>)
      requires Valid()
      modifies this
      ensures Valid()
      ensures old(Pendientes(pila)) == [] ==> r == Falla(NoHayElemento) && pila == old(pila)
      ensures old(Pendientes(pila)) != [] ==>
                r.Exito? && old(Pendientes(pila)) == [r.valor] + Pendientes(pila)
    {
      if pila == [] {
        return Falla(NoHayElemento);
      }
      var vertice := pila[0];
      PendientesTope(pila);
      pila := pila[1..];
      if vertice.foco.derecho.V? {
        AgregaRamaIzquierda(BajaDer(vertice));
      }
      return Exito(vertice.foco.elemento);
    }
  }

  // ---------------------------------------------------------------------
  // The tree object.

  /** ArbolBinarioOrdenado with the fields it inherits from ArbolBinario. */
  class ArbolBinarioOrdenado {
    var raiz: Vertice
    var elementos: int
    var ultimoAgregado: Option<Posicion>

    /** The counter is the number of vertices and the in-order sequence is
        sorted, which is the class's order invariant (`EsABBSiOrdenada`). */
    predicate Valid()
      reads this
    {
      elementos == Tamano(raiz) && Ordenada(InOrden(raiz))
    }

    /** The empty tree. */
    constructor()
      ensures Valid() && raiz == Nulo && elementos == 0 && ultimoAgregado == None
    {
      raiz := Nulo;
      elementos := 0;
      ultimoAgregado := None;
    }

    /** agrega: a null element is rejected with IllegalArgumentException and
        nothing changes. Otherwise the new leaf becomes `ultimoAgregado` (what
        getUltimoVerticeAgregado returns), the counter grows by one, an empty
        tree gets the leaf as its root, and the tree gains one copy of the
        element at the place `InsertaOrdenado` describes. */
    method Agrega(e: Option<int>) returns (r: Resultado<()>)
      requires Valid()
      modifies this
      ensures Valid()
      ensures e.None? ==> r == Falla(ArgumentoInvalido) && raiz == old(raiz) &&
                            elementos == old(elementos) && ultimoAgregado == old(ultimoAgregado)
      ensures e.Some? ==> r == Exito(()) && elementos == old(elementos) + 1 &&
                            ultimoAgregado == Some(Inserta(old(raiz), e.value)) &&
                            raiz == Arbol(ultimoAgregado.value) &&
                            ultimoAgregado.value.foco == NuevoVertice(e.value)
      ensures e.Some? ==> multiset(InOrden(raiz)) == multiset(InOrden(old(raiz))) + multiset{e.value}
      ensures e.Some? && old(raiz).Nulo? ==> raiz == NuevoVertice(e.value)
    {
      if e.None? {
        return Falla(ArgumentoInvalido);
      }
      var x := e.value;
      InsertaPartes(raiz, x);
      InsertaOrdenado(raiz, x);
      elementos := elementos + 1;
      if raiz.Nulo? {
        raiz := NuevoVertice(x);
        ultimoAgregado := Some(Raiz(raiz));
        return Exito(());
      }
      var nuevo := InsertaEn(Raiz(raiz), x);
      ultimoAgregado := Some(nuevo);
      raiz := Arbol(nuevo);
      return Exito(());
    }

    /** elimina: an element that busca does not find changes nothing.
        Otherwise the counter drops by one and the found vertex is removed as
        `EliminaEn` describes: exactly one copy of the element leaves the
        tree and the order is kept. */
    method Elimina(x: int)
      requires Valid()
      modifies this
      ensures Valid() && ultimoAgregado == old(ultimoAgregado)
      ensures x !in InOrden(old(raiz)) ==> raiz == old(raiz) && elementos == old(elementos)
      ensures x in InOrden(old(raiz)) ==>
                BuscaOrdenado(old(raiz), x).Some? &&
                raiz == Arbol(EliminaEn(BuscaOrdenado(old(raiz), x).value)) &&
                elementos == old(elementos) - 1 &&
                multiset(InOrden(raiz)) == multiset(InOrden(old(raiz))) - multiset{x}
    {
      var aEliminar := BuscaOrdenado(raiz, x);
      if aEliminar.None? {
        return;
      }
      EliminaDeArbol(raiz, x);
      elementos := elementos - 1;
      raiz := Arbol(EliminaEn(aEliminar.value));
    }

    /** giraDerecha: nothing happens on an empty tree, for a null handle or
        for a vertex without a left child; otherwise the tree is rotated at
        the vertex (the root changes when the vertex was the root). */
    method GiraDerecha(v: Option<Posicion>)
      requires Valid() && (v.Some? ==> Arbol(v.value) == raiz)
      modifies this
      ensures Valid() && elementos == old(elementos) && ultimoAgregado == old(ultimoAgregado)
      ensures old(raiz).Nulo? || v.None? || !HayIzquierdo(v.value) ==> raiz == old(raiz)
      ensures old(raiz).V? && v.Some? && HayIzquierdo(v.value) ==> raiz == Arbol(GiraDerechaEn(v.value))
      ensures InOrden(raiz) == InOrden(old(raiz))
    {
      if raiz.Nulo? || v.None? {
        return;
      }
      if !HayIzquierdo(v.value) {
        return;
      }
      var girado := Arbol(GiraDerechaEn(v.value));
      MismoInOrdenMismoTamano(raiz, girado);
      raiz := girado;
    }

    /** giraIzquierda: the mirror image of `GiraDerecha`. */
    method GiraIzquierda(v: Option<Posicion>)
      requires Valid() && (v.Some? ==> Arbol(v.value) == raiz)
      modifies this
      ensures Valid() && elementos == old(elementos) && ultimoAgregado == old(ultimoAgregado)
      ensures old(raiz).Nulo? || v.None? || !HayDerecho(v.value) ==> raiz == old(raiz)
      ensures old(raiz).V? && v.Some? && HayDerecho(v.value) ==> raiz == Arbol(GiraIzquierdaEn(v.value))
      ensures InOrden(raiz) == InOrden(old(raiz))
    {
      if raiz.Nulo? || v.None? {
        return;
      }
      if !HayDerecho(v.value) {
        return;
      }
      var girado := Arbol(GiraIzquierdaEn(v.value));
      MismoInOrdenMismoTamano(raiz, girado);
      raiz := girado;
    }

    /** limpia (from ArbolBinario): no root and no elements; the tree is empty. */
    method Limpia()
      modifies this
      ensures Valid() && raiz == Nulo && elementos == 0 && EsVacia(raiz)
      ensures ultimoAgregado == old(ultimoAgregado)
    {
      raiz := Nulo;
      elementos := 0;
    }

    /** iterator: a fresh in-order iterator; it will produce the sorted
        in-order sequence of the tree. */
    method Iterator() returns (it: Iterador)
      requires Valid()
      ensures fresh(it) && it.Valid() && Pendientes(it.pila) == InOrden(raiz) && Ordenada(Pendientes(it.pila))
    {
      it := new Iterador(raiz);
    }
  }
}
