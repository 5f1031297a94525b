// ArbolAVL: an ordered tree whose vertices cache their height and which,
// after every insertion and deletion, walks up from the changed place
// recomputing heights and rotating wherever a vertex leans by two.

module AVL {
  import opened Vertices
  import opened Posiciones
  import opened Ordenado

  /** The height of a child as the engine reads it: the cached `altura` field
      of a VerticeAVL, and -1 for a missing child. */
  function AlturaCache(v: Vertice): int
  {
    if v.Nulo? then -1 else v.altura
  }

  /** calculaAltura: one more than the higher cached height of the children. */
  function CalculaAltura(v: Vertice): (h: int)
    requires v.V?
    ensures h > AlturaCache(v.izquierdo) && h > AlturaCache(v.derecho)
    ensures h == AlturaCache(v.izquierdo) + 1 || h == AlturaCache(v.derecho) + 1
  {
    Max(AlturaCache(v.izquierdo), AlturaCache(v.derecho)) + 1
  }

  /** The AVL invariant as the engine keeps it: every cached height is what
      `CalculaAltura` gives and every vertex leans by at most one. */
  predicate EsAVL(v: Vertice)
  {
    v.Nulo? ||
    (EsAVL(v.izquierdo) && EsAVL(v.derecho) && v.altura == CalculaAltura(v) &&
     -1 <= AlturaCache(v.izquierdo) - AlturaCache(v.derecho) <= 1)
  }

  /** The class's doc comment, with the recursive `ArbolBinario.altura`: the
      heights of the two subtrees of every vertex differ by at most one. */
  predicate Balanceado(v: Vertice)
  {
    v.Nulo? || (Balanceado(v.izquierdo) && Balanceado(v.derecho) && -1 <= Altura(v.izquierdo) - Altura(v.derecho) <= 1)
  }

  /** Every cached height equals the recursive height. */
  predicate AlturasCorrectas(v: Vertice)
  {
    v.Nulo? || (AlturasCorrectas(v.izquierdo) && AlturasCorrectas(v.derecho) && v.altura == Altura(v))
  }

  /** The engine's invariant is exactly balance plus correct cached heights;
      then the cached height of a subtree is its height. */
  lemma {:induction false} EsAVLSiBalanceado(v: Vertice)
    ensures EsAVL(v) <==> Balanceado(v) && AlturasCorrectas(v)
    ensures EsAVL(v) ==> AlturaCache(v) == Altura(v)
  {
    if v.V? {
      EsAVLSiBalanceado(v.izquierdo);
      EsAVLSiBalanceado(v.derecho);
    }
  }

  /** A cached height of a valid subtree is at least -1, and at least 0 for a vertex. */
  lemma AlturaCacheMinima(v: Vertice)
    ensures EsAVL(v) ==> AlturaCache(v) >= -1 && (v.V? ==> AlturaCache(v) >= 0)
  {
    EsAVLSiBalanceado(v);
    AlturaAcotada(v);
  }

  /** balanceVertice: the cached height of the left child minus that of the
      right, a missing child counting -1; on valid children it is the
      difference of their heights. */
  function BalanceVertice(v: Vertice): (b: int)
    requires v.V?
    ensures EsAVL(v.izquierdo) && EsAVL(v.derecho) ==> b == Altura(v.izquierdo) - Altura(v.derecho)
  {
    EsAVLSiBalanceado(v.izquierdo);
    EsAVLSiBalanceado(v.derecho);
    AlturaCache(v.izquierdo) - AlturaCache(v.derecho)
  }

  /** `vertice.altura = calculaAltura(vertice)`. */
  function ConAltura(v: Vertice): Vertice
    requires v.V?
  {
    v.(altura := CalculaAltura(v))
  }

  /** super.giraDerecha(v), then the heights of the lowered vertex and of the
      new subtree root recomputed, in that order. */
  function GiraDerechaRecalcula(v: Vertice): Vertice
    requires v.V? && v.izquierdo.V?
  {
    var r := GiraDerechaEn(Raiz(v)).foco;
    ConAltura(r.(derecho := ConAltura(r.derecho)))
  }

  /** super.giraIzquierda(v), then the heights of the lowered vertex and of
      the new subtree root recomputed, in that order. */
  function GiraIzquierdaRecalcula(v: Vertice): Vertice
    requires v.V? && v.derecho.V?
  {
    var r := GiraIzquierdaEn(Raiz(v)).foco;
    ConAltura(r.(izquierdo := ConAltura(r.izquierdo)))
  }

  /** super.giraIzquierda(p) in the mirror double rotation: there the source
      recomputes the new subtree root first (from the lowered vertex's stale
      height) and the lowered vertex second. */
  function GiraIzquierdaRaizPrimero(p: Vertice): Vertice
    requires p.V? && p.derecho.V?
  {
    var r := ConAltura(GiraIzquierdaEn(Raiz(p)).foco);
    r.(izquierdo := ConAltura(r.izquierdo))
  }

  /** A rotation followed by the source's height updates keeps the in-order sequence. */
  lemma GirosMismoInOrden(v: Vertice)
    requires v.V?
    ensures v.izquierdo.V? ==> InOrden(GiraDerechaRecalcula(v)) == InOrden(v)
    ensures v.derecho.V? ==> InOrden(GiraIzquierdaRecalcula(v)) == InOrden(v)
    ensures v.derecho.V? ==> InOrden(GiraIzquierdaRaizPrimero(v)) == InOrden(v)
  {
    if v.izquierdo.V? {
      var r := GiraDerechaEn(Raiz(v)).foco;
      assert InOrden(r.(derecho := ConAltura(r.derecho))) == InOrden(r);
    }
    if v.derecho.V? {
      var r := GiraIzquierdaEn(Raiz(v)).foco;
      assert InOrden(r.(izquierdo := ConAltura(r.izquierdo))) == InOrden(r);
      var r1 := ConAltura(r);
      assert InOrden(r1.(izquierdo := ConAltura(r1.izquierdo))) == InOrden(r1);
    }
  }

  /** The body of one call of rebalanceaArbolAVL on a vertex, before it goes
      on to `vertice.padre`: recompute the height; a vertex leaning right by
      two is rotated left, after a right rotation of its right child when that
      child leans left; the mirror image for a vertex leaning left by two.
      The result is the subtree now hanging where the vertex hung. */
  function Balancea(v: Vertice): (r: Vertice)
    requires v.V? && EsAVL(v.izquierdo) && EsAVL(v.derecho)
    ensures r.V? && InOrden(r) == InOrden(v)
  {
    AlturaCacheMinima(v.izquierdo);
    AlturaCacheMinima(v.derecho);
    var v1 := ConAltura(v);
    var balance := BalanceVertice(v1);
    if balance == -2 then
      var q := v1.derecho;
      AlturaCacheMinima(q.izquierdo);
      AlturaCacheMinima(q.derecho);
      var q1 := if BalanceVertice(q) == 1 then GiraDerechaRecalcula(q) else q;
      GirosMismoInOrden(q);
      GirosMismoInOrden(v1.(derecho := q1));
      GiraIzquierdaRecalcula(v1.(derecho := q1))
    else if balance == 2 then
      var p := v1.izquierdo;
      AlturaCacheMinima(p.izquierdo);
      AlturaCacheMinima(p.derecho);
      var p1 := if BalanceVertice(p) == -1 then GiraIzquierdaRaizPrimero(p) else p;
      GirosMismoInOrden(p);
      GirosMismoInOrden(v1.(izquierdo := p1));
      GiraDerechaRecalcula(v1.(izquierdo := p1))
    else
      v1
  }

  // ---------------------------------------------------------------------
  // Why a rotation restores the balance.

  /** A vertex leaning left by two whose left child does not lean right: one
      right rotation gives a valid subtree, as high as the left child or one
      higher. */
  lemma RotacionSimpleDerecha(w: Vertice)
    requires w.V? && w.izquierdo.V? && EsAVL(w.izquierdo) && EsAVL(w.derecho)
    requires AlturaCache(w.izquierdo) == AlturaCache(w.derecho) + 2
    requires 0 <= BalanceVertice(w.izquierdo) <= 1
    ensures EsAVL(GiraDerechaRecalcula(w))
    ensures AlturaCache(w.izquierdo) <= AlturaCache(GiraDerechaRecalcula(w)) <= AlturaCache(w.izquierdo) + 1
  {
    var p := w.izquierdo;
    AlturaCacheMinima(p.izquierdo);
    AlturaCacheMinima(p.derecho);
    AlturaCacheMinima(w.derecho);
    var bajo := ConAltura(V(p.derecho, w.elemento, w.derecho, w.altura, w.color));
    assert GiraDerechaEn(Raiz(w)).foco == V(p.izquierdo, p.elemento, V(p.derecho, w.elemento, w.derecho, w.altura, w.color), p.altura, p.color);
    assert EsAVL(bajo);
    assert GiraDerechaRecalcula(w) == ConAltura(V(p.izquierdo, p.elemento, bajo, p.altura, p.color));
  }

  /** The mirror image of `RotacionSimpleDerecha`. */
  lemma RotacionSimpleIzquierda(w: Vertice)
    requires w.V? && w.derecho.V? && EsAVL(w.izquierdo) && EsAVL(w.derecho)
    requires AlturaCache(w.derecho) == AlturaCache(w.izquierdo) + 2
    requires -1 <= BalanceVertice(w.derecho) <= 0
    ensures EsAVL(GiraIzquierdaRecalcula(w))
    ensures AlturaCache(w.derecho) <= AlturaCache(GiraIzquierdaRecalcula(w)) <= AlturaCache(w.derecho) + 1
  {
    var q := w.derecho;
    AlturaCacheMinima(q.izquierdo);
    AlturaCacheMinima(q.derecho);
    AlturaCacheMinima(w.izquierdo);
    var bajo := ConAltura(V(w.izquierdo, w.elemento, q.izquierdo, w.altura, w.color));
    assert GiraIzquierdaEn(Raiz(w)).foco == V(V(w.izquierdo, w.elemento, q.izquierdo, w.altura, w.color), q.elemento, q.derecho, q.altura, q.color);
    assert EsAVL(bajo);
    assert GiraIzquierdaRecalcula(w) == ConAltura(V(bajo, q.elemento, q.derecho, q.altura, q.color));
  }

  /** A vertex leaning left by two whose left child leans right: a left
      rotation of the child and a right rotation of the vertex give a valid
      subtree exactly as high as the left child was. */
  lemma RotacionDobleDerecha(w: Vertice)
    requires w.V? && w.izquierdo.V? && EsAVL(w.izquierdo) && EsAVL(w.derecho)
    requires AlturaCache(w.izquierdo) == AlturaCache(w.derecho) + 2
    requires BalanceVertice(w.izquierdo) == -1
    ensures w.izquierdo.derecho.V?
    ensures EsAVL(GiraDerechaRecalcula(w.(izquierdo := GiraIzquierdaRaizPrimero(w.izquierdo))))
    ensures AlturaCache(GiraDerechaRecalcula(w.(izquierdo := GiraIzquierdaRaizPrimero(w.izquierdo)))) == AlturaCache(w.izquierdo)
  {
    var p := w.izquierdo;
    AlturaCacheMinima(p.izquierdo);
    AlturaCacheMinima(p.derecho);
    AlturaCacheMinima(w.derecho);
    var y := p.derecho;
    AlturaCacheMinima(y.izquierdo);
    AlturaCacheMinima(y.derecho);
    var p1 := GiraIzquierdaRaizPrimero(p);
    var bajo := ConAltura(V(p.izquierdo, p.elemento, y.izquierdo, p.altura, p.color));
    assert GiraIzquierdaEn(Raiz(p)).foco == V(V(p.izquierdo, p.elemento, y.izquierdo, p.altura, p.color), y.elemento, y.derecho, y.altura, y.color);
    assert p1.izquierdo == bajo && p1.derecho == y.derecho && p1.elemento == y.elemento;
    assert EsAVL(bajo);
    var w1 := w.(izquierdo := p1);
    assert GiraDerechaEn(Raiz(w1)).foco == V(bajo, y.elemento, V(y.derecho, w.elemento, w.derecho, w.altura, w.color), p1.altura, y.color);
  }

  /** The mirror image of `RotacionDobleDerecha`; here the source recomputes
      the child rotation's heights lowered vertex first. */
  lemma RotacionDobleIzquierda(w: Vertice)
    requires w.V? && w.derecho.V? && EsAVL(w.izquierdo) && EsAVL(w.derecho)
    requires AlturaCache(w.derecho) == AlturaCache(w.izquierdo) + 2
    requires BalanceVertice(w.derecho) == 1
    ensures w.derecho.izquierdo.V?
    ensures EsAVL(GiraIzquierdaRecalcula(w.(derecho := GiraDerechaRecalcula(w.derecho))))
    ensures AlturaCache(GiraIzquierdaRecalcula(w.(derecho := GiraDerechaRecalcula(w.derecho)))) == AlturaCache(w.derecho)
  {
    var q := w.derecho;
    AlturaCacheMinima(q.izquierdo);
    AlturaCacheMinima(q.derecho);
    AlturaCacheMinima(w.izquierdo);
    var x := q.izquierdo;
    AlturaCacheMinima(x.izquierdo);
    AlturaCacheMinima(x.derecho);
    var q1 := GiraDerechaRecalcula(q);
    var bajo := ConAltura(V(x.derecho, q.elemento, q.derecho, q.altura, q.color));
    assert GiraDerechaEn(Raiz(q)).foco == V(x.izquierdo, x.elemento, V(x.derecho, q.elemento, q.derecho, q.altura, q.color), x.altura, x.color);
    assert q1.derecho == bajo && q1.izquierdo == x.izquierdo && q1.elemento == x.elemento;
    assert EsAVL(bajo);
    var w1 := w.(derecho := q1);
    assert GiraIzquierdaEn(Raiz(w1)).foco == V(V(w.izquierdo, w.elemento, x.izquierdo, w.altura, w.color), x.elemento, bajo, q1.altura, x.color);
  }

  /** One step of the walk on a vertex whose children are valid and whose
      cached child heights differ by at most two gives a valid subtree. With
      no lean of two nothing but the height changes; otherwise the new subtree
      is as high as the taller child or one higher. */
  lemma BalanceaAVL(v: Vertice)
    requires v.V? && EsAVL(v.izquierdo) && EsAVL(v.derecho)
    requires -2 <= AlturaCache(v.izquierdo) - AlturaCache(v.derecho) <= 2
    ensures EsAVL(Balancea(v))
    ensures -1 <= AlturaCache(v.izquierdo) - AlturaCache(v.derecho) <= 1 ==>
              Balancea(v) == ConAltura(v) && AlturaCache(Balancea(v)) == CalculaAltura(v)
    ensures AlturaCache(v.izquierdo) - AlturaCache(v.derecho) == 2 ==>
              AlturaCache(v.izquierdo) <= AlturaCache(Balancea(v)) <= AlturaCache(v.izquierdo) + 1
    ensures AlturaCache(v.derecho) - AlturaCache(v.izquierdo) == 2 ==>
              AlturaCache(v.derecho) <= AlturaCache(Balancea(v)) <= AlturaCache(v.derecho) + 1
  {
    AlturaCacheMinima(v.izquierdo);
    AlturaCacheMinima(v.derecho);
    var v1 := ConAltura(v);
    var balance := BalanceVertice(v1);
    if balance == -2 {
      var q := v1.derecho;
      AlturaCacheMinima(q.izquierdo);
      AlturaCacheMinima(q.derecho);
      if BalanceVertice(q) == 1 {
        RotacionDobleIzquierda(v1);
      } else {
        assert v1.(derecho := q) == v1;
        RotacionSimpleIzquierda(v1);
      }
    } else if balance == 2 {
      var p := v1.izquierdo;
      AlturaCacheMinima(p.izquierdo);
      AlturaCacheMinima(p.derecho);
      if BalanceVertice(p) == -1 {
        RotacionDobleDerecha(v1);
      } else {
        assert v1.(izquierdo := p) == v1;
        RotacionSimpleDerecha(v1);
      }
    }
  }

  /** Which vertex ends at the top after one step: the vertex itself when it
      does not lean by two; its taller child after a single rotation; that
      child's inner child (x or y in the source) after a double rotation. */
  lemma EleccionDeGiro(v: Vertice)
    requires v.V? && EsAVL(v.izquierdo) && EsAVL(v.derecho)
    ensures BalanceVertice(v) != 2 && BalanceVertice(v) != -2 ==> Balancea(v).elemento == v.elemento
    ensures BalanceVertice(v) == -2 ==> v.derecho.V?
    ensures BalanceVertice(v) == -2 && BalanceVertice(v.derecho) == 1 ==>
              v.derecho.izquierdo.V? && Balancea(v).elemento == v.derecho.izquierdo.elemento
    ensures BalanceVertice(v) == -2 && BalanceVertice(v.derecho) != 1 ==> Balancea(v).elemento == v.derecho.elemento
    ensures BalanceVertice(v) == 2 ==> v.izquierdo.V?
    ensures BalanceVertice(v) == 2 && BalanceVertice(v.izquierdo) == -1 ==>
              v.izquierdo.derecho.V? && Balancea(v).elemento == v.izquierdo.derecho.elemento
    ensures BalanceVertice(v) == 2 && BalanceVertice(v.izquierdo) != -1 ==> Balancea(v).elemento == v.izquierdo.elemento
  {
    AlturaCacheMinima(v.izquierdo);
    AlturaCacheMinima(v.derecho);
    if BalanceVertice(v) == -2 {
      AlturaCacheMinima(v.derecho.izquierdo);
      AlturaCacheMinima(v.derecho.derecho);
    } else if BalanceVertice(v) == 2 {
      AlturaCacheMinima(v.izquierdo.izquierdo);
      AlturaCacheMinima(v.izquierdo.derecho);
    }
  }

  // ---------------------------------------------------------------------
  // The walk along `padre`.

  /** The child of an ancestor that is not on the path. */
  function Hermano(m: Marco): Vertice
  {
    match m
    case MarcoIzq(x, d, h, c) => d
    case MarcoDer(i, x, h, c) => i
  }

  /** The ancestors of a place are as in a valid tree whose subtree at that
      place is `h` high: each off-path child is valid, and each ancestor's
      cached height and lean are right for a path child of the height the
      ancestor below it caches (`h` for the first). */
  predicate MarcosAVL(ms: seq<Marco>, h: int)
    decreases |ms|
  {
    ms == [] ||
    (EsAVL(Hermano(ms[0])) && -1 <= h - AlturaCache(Hermano(ms[0])) <= 1 &&
     ms[0].altura == 1 + Max(h, AlturaCache(Hermano(ms[0]))) && MarcosAVL(ms[1..], ms[0].altura))
  }

  /** A tree is valid exactly when the subtree at a place is and the
      ancestors fit its cached height. */
  lemma {:induction false} MarcosAVLTapa(f: Vertice, ms: seq<Marco>)
    ensures EsAVL(Tapa(f, ms)) <==> EsAVL(f) && MarcosAVL(ms, AlturaCache(f))
    decreases |ms|
  {
    if ms != [] {
      MarcosAVLTapa(Pega(ms[0], f), ms[1..]);
    }
  }

  /** Replacing an ancestor by one with the same off-path child and cached
      height (as intercambiaEliminable does by overwriting an element) keeps
      the frames valid. */
  lemma {:induction false} MarcosAVLCambia(ms: seq<Marco>, k: int, m: Marco, h: int)
    requires 0 <= k < |ms| && Hermano(m) == Hermano(ms[k]) && m.altura == ms[k].altura
    ensures MarcosAVL(ms[k := m], h) == MarcosAVL(ms, h)
    decreases |ms|
  {
    if k > 0 {
      assert ms[k := m][1..] == ms[1..][k - 1 := m];
      MarcosAVLCambia(ms[1..], k - 1, m, ms[0].altura);
    } else {
      assert ms[k := m][1..] == ms[1..];
    }
  }

  /** The subtree at the place was `h` high before the change; its children
      are valid and one of them has changed height by at most one, or the
      whole subtree is already valid and within one of `h`. */
  predicate Pendiente(v: Vertice, h: int)
  {
    v.V? && EsAVL(v.izquierdo) && EsAVL(v.derecho) &&
    ((EsAVL(v) && -1 <= AlturaCache(v) - h <= 1) ||
     UnoCambio(AlturaCache(v.izquierdo), AlturaCache(v.derecho), h) ||
     UnoCambio(AlturaCache(v.derecho), AlturaCache(v.izquierdo), h))
  }

  /** Children now `a` and `b` high, where `a` was within one of its old
      height, and `b` with that old height made a balanced vertex `h` high. */
  predicate UnoCambio(a: int, b: int, h: int)
  {
    exists a0 | a - 1 <= a0 <= a + 1 :: -1 <= a0 - b <= 1 && h == 1 + Max(a0, b)
  }

  /** rebalanceaArbolAVL's body keeps the walk's invariant: the subtree left
      behind is valid and within one of the height the place had before. */
  lemma PasoAVL(v: Vertice, h: int)
    requires Pendiente(v, h)
    ensures EsAVL(Balancea(v)) && -1 <= AlturaCache(Balancea(v)) - h <= 1
  {
    var a, b := AlturaCache(v.izquierdo), AlturaCache(v.derecho);
    if EsAVL(v) && -1 <= AlturaCache(v) - h <= 1 {
      BalanceaAVL(v);
    } else if UnoCambio(a, b, h) {
      var a0 :| a - 1 <= a0 <= a + 1 && -1 <= a0 - b <= 1 && h == 1 + Max(a0, b);
      BalanceaAVL(v);
    } else {
      var b0 :| b - 1 <= b0 <= b + 1 && -1 <= b0 - a <= 1 && h == 1 + Max(b0, a);
      BalanceaAVL(v);
    }
  }

  /** Going up from a finished place to its parent: the parent is the next
      vertex to visit, its old height is its cached one, and the ancestors
      above it still fit. */
  lemma SubeAVL(z: Posicion, h: int)
    requires z.marcos != [] && EsAVL(z.foco) && -1 <= AlturaCache(z.foco) - h <= 1
    requires MarcosAVL(z.marcos, h)
    ensures Pendiente(Sube(z).foco, z.marcos[0].altura) && MarcosAVL(z.marcos[1..], z.marcos[0].altura)
  {
    var m := z.marcos[0];
    var a := AlturaCache(z.foco);
    var b := AlturaCache(Hermano(m));
    assert -1 <= h - b <= 1 && m.altura == 1 + Max(h, b);
    assert UnoCambio(a, b, m.altura);
  }

  // ---------------------------------------------------------------------
  // Where the walk starts after a deletion.

  /** Splicing out a vertex with at most one child from a valid tree leaves a
      valid subtree in its place, one lower than the vertex was, under
      ancestors that fit the vertex's height. */
  lemma EliminaVerticeAVL(z: Posicion)
    requires z.foco.V? && (z.foco.izquierdo.Nulo? || z.foco.derecho.Nulo?)
    requires EsAVL(z.foco) && MarcosAVL(z.marcos, AlturaCache(z.foco))
    ensures EsAVL(EliminaVertice(z).foco)
    ensures MarcosAVL(EliminaVertice(z).marcos, AlturaCache(EliminaVertice(z).foco) + 1)
  {
    AlturaCacheMinima(z.foco.izquierdo);
    AlturaCacheMinima(z.foco.derecho);
  }

  /** The second eliminaVertice of the two-children case finds nothing to do:
      the parent slot of the spliced vertex now holds its child, a smaller
      subtree, and no longer the vertex. */
  lemma SegundaEliminacionNula(z: Posicion)
    requires z.foco.V? && (z.foco.izquierdo.Nulo? || z.foco.derecho.Nulo?)
    ensures EliminaVertice(z).marcos == z.marcos && EliminaVertice(z).foco != z.foco
  {
    assert Tamano(EliminaVertice(z).foco) < Tamano(z.foco);
  }

  /** Deleting the vertex at a place of a valid tree (elimina, before the
      walk): the subtree left where a vertex was spliced out is valid and one
      lower than that vertex, under ancestors that fit the vertex's height. */
  lemma EliminaEnAVL(p: Posicion)
    requires p.foco.V? && EsAVL(Arbol(p))
    ensures EsAVL(EliminaEn(p).foco)
    ensures MarcosAVL(EliminaEn(p).marcos, AlturaCache(EliminaEn(p).foco) + 1)
  {
    if p.foco.izquierdo.V? && p.foco.derecho.V? {
      EliminaEnAVLDosHijos(p);
    } else {
      MarcosAVLTapa(p.foco, p.marcos);
      EliminaVerticeAVL(p);
    }
  }

  /** The two-children case of `EliminaEnAVL`: the maximum of the left
      subtree takes the vertex's element and is spliced out in its place. */
  lemma EliminaEnAVLDosHijos(p: Posicion)
    requires p.foco.V? && p.foco.izquierdo.V? && p.foco.derecho.V? && EsAVL(Arbol(p))
    ensures EsAVL(EliminaEn(p).foco)
    ensures MarcosAVL(EliminaEn(p).marcos, AlturaCache(EliminaEn(p).foco) + 1)
  {
    var w := IntercambiaEliminable(p);
    IntercambiaAVL(p);
    EliminaVerticeAVL(w);
    assert EliminaEn(p) == EliminaVertice(w);
  }

  /** intercambiaEliminable on a valid tree: the handle of the predecessor,
      whose element went up, sits under ancestors that still fit it (the
      overwritten ancestor keeps its height and its other child). */
  lemma IntercambiaAVL(p: Posicion)
    requires p.foco.V? && p.foco.izquierdo.V? && p.foco.derecho.V? && EsAVL(Arbol(p))
    ensures EsAVL(IntercambiaEliminable(p).foco)
    ensures MarcosAVL(IntercambiaEliminable(p).marcos, AlturaCache(IntercambiaEliminable(p).foco))
  {
    var q := BajaIzq(p);
    var m := MaximoSubArbol(q);
    DebajoMismoArbol(m, q);
    MarcosAVLTapa(m.foco, m.marcos);
    var k := |m.marcos| - |p.marcos| - 1;
    var nuevo := MarcoIzq(m.foco.elemento, p.foco.derecho, p.foco.altura, p.foco.color);
    assert m.marcos[k..] == q.marcos;
    assert m.marcos[k] == q.marcos[0];
    MarcosAVLCambia(m.marcos, k, nuevo, AlturaCache(m.foco));
    assert IntercambiaEliminable(p) == Posicion(m.foco, m.marcos[k := nuevo]);
  }

  /** What an insertion into a valid sorted tree hands to the walk: the new
      leaf is the first vertex to visit, its place was empty (-1 high), the
      ancestors fit that height, and the tree is sorted with one more copy. */
  lemma AgregaAVL(t: Vertice, x: int)
    requires EsAVL(t) && Ordenada(InOrden(t))
    ensures Pendiente(Inserta(t, x).foco, -1) && MarcosAVL(Inserta(t, x).marcos, -1)
    ensures Ordenada(InOrden(Arbol(Inserta(t, x))))
    ensures Tamano(Arbol(Inserta(t, x))) == Tamano(t) + 1
    ensures multiset(InOrden(Arbol(Inserta(t, x)))) == multiset(InOrden(t)) + multiset{x}
  {
    var hoja := Inserta(t, x);
    MarcosAVLTapa(Nulo, hoja.marcos);
    InsertaPartes(t, x);
    InsertaOrdenado(t, x);
  }

  /** What a deletion from a valid sorted tree hands to the walk: either the
      spliced vertex was the root and the tree is already valid, or its
      parent is the first vertex to visit. */
  lemma EliminaAVL(t: Vertice, x: int)
    requires EsAVL(t) && Ordenada(InOrden(t)) && x in InOrden(t)
    ensures BuscaOrdenado(t, x).Some?
    ensures var u := EliminaEn(BuscaOrdenado(t, x).value);
      (u.marcos == [] ==> EsAVL(Arbol(u))) &&
      (u.marcos != [] ==> Pendiente(Sube(u).foco, u.marcos[0].altura) && MarcosAVL(Sube(u).marcos, u.marcos[0].altura))
  {
    EliminaDeArbol(t, x);
    var p := BuscaOrdenado(t, x).value;
    EliminaEnAVL(p);
    var u := EliminaEn(p);
    if u.marcos != [] {
      SubeAVL(u, AlturaCache(u.foco) + 1);
    }
  }

  /** One turn of the walk: the place is left valid and within one of its
      old height, with the whole tree's in-order sequence unchanged. */
  lemma PasoCamino(z: Posicion, h: int)
    requires Pendiente(z.foco, h) && MarcosAVL(z.marcos, h)
    ensures var y := Cambia(z, Balancea(z.foco));
      EsAVL(y.foco) && -1 <= AlturaCache(y.foco) - h <= 1 && MarcosAVL(y.marcos, h) &&
      InOrden(Arbol(y)) == InOrden(Arbol(z)) && !Desbalanceado(y.foco)
  {
    PasoAVL(z.foco, h);
    MismoInOrdenTapa(z.foco, Balancea(z.foco), z.marcos);
  }

  /** A vertex that leans by two, the only case in which the walk rotates. */
  predicate Desbalanceado(v: Vertice)
  {
    v.V? && (BalanceVertice(v) == 2 || BalanceVertice(v) == -2)
  }

  // ---------------------------------------------------------------------
  // The tree object.

  /** ArbolAVL with the fields it inherits. */
  class ArbolAVL {
    var raiz: Vertice
    var elementos: int

    /** The counter is right, the tree is sorted and it is a valid AVL tree
        (`EsAVLSiBalanceado`: balanced, with correct cached heights). */
    predicate Valid()
      reads this
    {
      elementos == Tamano(raiz) && Ordenada(InOrden(raiz)) && EsAVL(raiz)
    }

    /** The empty tree. */
    constructor()
      ensures Valid() && raiz == Nulo && elementos == 0
    {
      raiz := Nulo;
      elementos := 0;
    }

    /** rebalanceaArbolAVL: from the given vertex up to the root, recompute
        each vertex's height and rotate it when it leans by two; after a
        rotation the next vertex is `vertice.padre`, which is then the new
        root of the same place, so that place is visited once more. A null
        vertex ends the walk at once. The tree ends valid with its in-order
        sequence unchanged. */
    method RebalanceaArbolAVL(vertice: Option<Posicion>, ghost h: int)
      requires vertice.Some? ==> Arbol(vertice.value) == raiz && Pendiente(vertice.value.foco, h) &&
                                 MarcosAVL(vertice.value.marcos, h)
      requires vertice.None? ==> EsAVL(raiz)
      modifies this
      ensures EsAVL(raiz) && InOrden(raiz) == old(InOrden(raiz)) && elementos == old(elementos)
      ensures vertice.None? ==> raiz == old(raiz)
    {
      if vertice.None? {
        return;
      }
      var z := vertice.value;
      ghost var altura := h;
      ghost var recorrido := InOrden(raiz);
      while true
        invariant Pendiente(z.foco, altura) && MarcosAVL(z.marcos, altura)
        invariant raiz == Arbol(z) && InOrden(raiz) == recorrido && elementos == old(elementos)
        decreases 2 * |z.marcos| + (if Desbalanceado(z.foco) then 1 else 0)
      {
        var gira := Desbalanceado(z.foco);
        PasoCamino(z, altura);
        z := Cambia(z, Balancea(z.foco));
        raiz := Arbol(z);
        if !gira {
          if z.marcos == [] {
            break;
          }
          SubeAVL(z, altura);
          altura := z.marcos[0].altura;
          z := Sube(z);
        }
      }
    }

    /** agrega: a null element is rejected with IllegalArgumentException and
        nothing changes. Otherwise the element is inserted as in the ordered
        tree (one more element, one more copy) and the walk starts at the new
        leaf; the tree ends valid, and its in-order sequence is the one the
        ordered insertion gives. */
    method Agrega(e: Option<int>) returns (r: Resultado<()>)
      requires Valid()
      modifies this
      ensures Valid()
      ensures e.None? ==> r == Falla(ArgumentoInvalido) && raiz == old(raiz) && elementos == old(elementos)
      ensures e.Some? ==> r == Exito(()) && elementos == old(elementos) + 1 &&
                            InOrden(raiz) == InOrden(Arbol(Inserta(old(raiz), e.value)))
      ensures e.Some? ==> multiset(InOrden(raiz)) == multiset(InOrden(old(raiz))) + multiset{e.value}
    {
      if e.None? {
        return Falla(ArgumentoInvalido);
      }
      var x := e.value;
      var hoja := Inserta(raiz, x);
      AgregaAVL(raiz, x);
      elementos := elementos + 1;
      raiz := Arbol(hoja);
      ghost var insertado := raiz;
      RebalanceaArbolAVL(Some(hoja), -1);
      MismoInOrdenMismoTamano(insertado, raiz);
      return Exito(());
    }

    /** elimina: an element busca does not find changes nothing. Otherwise
        the counter drops by one, the vertex is removed as in the ordered
        tree, and the walk starts at the parent of the vertex spliced out (no
        walk when that vertex was the root). The tree ends valid, its in-order
        sequence the one the ordered deletion gives. */
    method Elimina(x: int)
      requires Valid()
      modifies this
      ensures Valid()
      ensures x !in InOrden(old(raiz)) ==> raiz == old(raiz) && elementos == old(elementos)
      ensures x in InOrden(old(raiz)) ==>
                BuscaOrdenado(old(raiz), x).Some? &&
                InOrden(raiz) == InOrden(Arbol(EliminaEn(BuscaOrdenado(old(raiz), x).value))) &&
                elementos == old(elementos) - 1 &&
                multiset(InOrden(raiz)) == multiset(InOrden(old(raiz))) - multiset{x}
    {
      var vertice := BuscaOrdenado(raiz, x);
      if vertice.None? {
        return;
      }
      EliminaDeArbol(raiz, x);
      EliminaAVL(raiz, x);
      elementos := elementos - 1;
      var u := EliminaEn(vertice.value);
      raiz := Arbol(u);
      ghost var eliminado := raiz;
      if u.marcos == [] {
        RebalanceaArbolAVL(None, 0);
      } else {
        RebalanceaArbolAVL(Some(Sube(u)), u.marcos[0].altura);
      }
      MismoInOrdenMismoTamano(eliminado, raiz);
    }

    /** giraDerecha: users may not rotate an AVL tree; the call always fails
        with UnsupportedOperationException and changes nothing. */
    method GiraDerecha(vertice: Option<Posicion>) returns (r: Resultado<()>)
      ensures r == Falla(OperacionNoSoportada)
    {
      return Falla(OperacionNoSoportada);
    }

    /** giraIzquierda: like `GiraDerecha`, always UnsupportedOperationException. */
    method GiraIzquierda(vertice: Option<Posicion>) returns (r: Resultado<()>)
      ensures r == Falla(OperacionNoSoportada)
    {
      return Falla(OperacionNoSoportada);
    }
  }
}
