// Vertex handles with their parent back-references. A handle on a vertex is
// the vertex's subtree together with the frames of its ancestors, innermost
// first: `padre` is the first frame, and plugging the subtree back into all
// the frames gives the whole tree. Every upward walk of the balancing engines
// goes through `Sube`.

module Posiciones {
  import opened Vertices

  /** One ancestor: its own fields and the child that is not on the path. */
  datatype Marco =
    | MarcoIzq(elemento: int, derecho: Vertice, altura: int, color: Color)    // the path goes to its left child
    | MarcoDer(izquierdo: Vertice, elemento: int, altura: int, color: Color)  // the path goes to its right child

  /** A position in a tree: the subtree there and the ancestors above it. */
  datatype Posicion = Posicion(foco: Vertice, marcos: seq<Marco>)

  /** The ancestor of a frame with `f` put back into its slot. */
  function Pega(m: Marco, f: Vertice): (v: Vertice)
    ensures v.V? && v.elemento == m.elemento && v.altura == m.altura && v.color == m.color
    ensures m.MarcoIzq? ==> v.izquierdo == f && v.derecho == m.derecho
    ensures m.MarcoDer? ==> v.derecho == f && v.izquierdo == m.izquierdo
  {
    match m
    case MarcoIzq(x, d, h, c) => V(f, x, d, h, c)
    case MarcoDer(i, x, h, c) => V(i, x, f, h, c)
  }

  /** The whole tree a subtree sits in, given its ancestors. */
  function Tapa(f: Vertice, ms: seq<Marco>): Vertice
    decreases |ms|
  {
    if ms == [] then f else Tapa(Pega(ms[0], f), ms[1..])
  }

  /** The tree a position belongs to. */
  function Arbol(p: Posicion): Vertice
  {
    Tapa(p.foco, p.marcos)
  }

  /** The position of the root of a tree. */
  function Raiz(t: Vertice): (p: Posicion)
    ensures Arbol(p) == t && p.foco == t
  {
    Posicion(t, [])
  }

  /** Moves a position to its parent (following `padre`). */
  function Sube(p: Posicion): (q: Posicion)
    requires p.marcos != []
    ensures Arbol(q) == Arbol(p) && |q.marcos| == |p.marcos| - 1
  {
    Posicion(Pega(p.marcos[0], p.foco), p.marcos[1..])
  }

  /** Moves a position to the left child. */
  function BajaIzq(p: Posicion): (q: Posicion)
    requires p.foco.V?
    ensures Arbol(q) == Arbol(p) && q.foco == p.foco.izquierdo && |q.marcos| == |p.marcos| + 1
  {
    var v := p.foco;
    Posicion(v.izquierdo, [MarcoIzq(v.elemento, v.derecho, v.altura, v.color)] + p.marcos)
  }

  /** Moves a position to the right child. */
  function BajaDer(p: Posicion): (q: Posicion)
    requires p.foco.V?
    ensures Arbol(q) == Arbol(p) && q.foco == p.foco.derecho && |q.marcos| == |p.marcos| + 1
  {
    var v := p.foco;
    Posicion(v.derecho, [MarcoDer(v.izquierdo, v.elemento, v.altura, v.color)] + p.marcos)
  }

  /** Replaces the subtree at a position, leaving the ancestors as they are. */
  function Cambia(p: Posicion, f: Vertice): (q: Posicion)
    ensures q.foco == f && q.marcos == p.marcos
  {
    Posicion(f, p.marcos)
  }

  /** The elements in-order before the subtree, contributed by the ancestors. */
  function Antes(ms: seq<Marco>): seq<int>
    decreases |ms|
  {
    if ms == [] then []
    else match ms[0]
      case MarcoIzq(x, d, h, c) => Antes(ms[1..])
      case MarcoDer(i, x, h, c) => Antes(ms[1..]) + InOrden(i) + [x]
  }

  /** The elements in-order after the subtree, contributed by the ancestors. */
  function Despues(ms: seq<Marco>): seq<int>
    decreases |ms|
  {
    if ms == [] then []
    else match ms[0]
      case MarcoIzq(x, d, h, c) => [x] + InOrden(d) + Despues(ms[1..])
      case MarcoDer(i, x, h, c) => Despues(ms[1..])
  }

  /** The in-order sequence of a tree, split around the subtree at a position. */
  lemma {:induction false} InOrdenTapa(f: Vertice, ms: seq<Marco>)
    ensures InOrden(Tapa(f, ms)) == Antes(ms) + InOrden(f) + Despues(ms)
    decreases |ms|
  {
    if ms != [] {
      InOrdenTapa(Pega(ms[0], f), ms[1..]);
    }
  }

  /** The ancestors of `a + b` place before the subtree first what `b` places, then what `a` does. */
  lemma {:induction false} AntesConcat(a: seq<Marco>, b: seq<Marco>)
    ensures Antes(a + b) == Antes(b) + Antes(a)
    decreases |a|
  {
    if a != [] {
      assert (a + b)[0] == a[0];
      assert (a + b)[1..] == a[1..] + b;
      AntesConcat(a[1..], b);
    } else {
      assert a + b == b;
    }
  }

  /** The ancestors of `a + b` place after the subtree first what `a` places, then what `b` does. */
  lemma {:induction false} DespuesConcat(a: seq<Marco>, b: seq<Marco>)
    ensures Despues(a + b) == Despues(a) + Despues(b)
    decreases |a|
  {
    if a != [] {
      assert (a + b)[0] == a[0];
      assert (a + b)[1..] == a[1..] + b;
      DespuesConcat(a[1..], b);
    } else {
      assert a + b == b;
    }
  }

  /** Two subtrees with the same in-order sequence give trees with the same one. */
  lemma MismoInOrdenTapa(f: Vertice, g: Vertice, ms: seq<Marco>)
    requires InOrden(f) == InOrden(g)
    ensures InOrden(Tapa(f, ms)) == InOrden(Tapa(g, ms))
  {
    InOrdenTapa(f, ms);
    InOrdenTapa(g, ms);
  }

  /** Plugging a subtree into `a + b` is plugging it into `a`, then the result into `b`. */
  lemma {:induction false} TapaConcat(f: Vertice, a: seq<Marco>, b: seq<Marco>)
    ensures Tapa(f, a + b) == Tapa(Tapa(f, a), b)
    decreases |a|
  {
    if a != [] {
      assert (a + b)[0] == a[0];
      assert (a + b)[1..] == a[1..] + b;
      TapaConcat(Pega(a[0], f), a[1..], b);
    } else {
      assert a + b == b;
    }
  }

  /** The frames between a position `r` and a position `p` above it. */
  function Camino(r: Posicion, p: Posicion): (c: seq<Marco>)
    requires |p.marcos| <= |r.marcos|
    ensures |c| == |r.marcos| - |p.marcos|
  {
    r.marcos[..|r.marcos| - |p.marcos|]
  }

  /** `r` lies in the subtree at `p`: its ancestors are a path followed by
      those of `p`, and the path plugs `r`'s subtree back into `p`'s. */
  predicate Debajo(r: Posicion, p: Posicion)
  {
    |p.marcos| <= |r.marcos| && r.marcos[|r.marcos| - |p.marcos|..] == p.marcos &&
    Tapa(r.foco, Camino(r, p)) == p.foco
  }

  /** A position below another belongs to the same tree. */
  lemma DebajoMismoArbol(r: Posicion, p: Posicion)
    requires Debajo(r, p)
    ensures Arbol(r) == Arbol(p)
  {
    assert r.marcos == Camino(r, p) + p.marcos;
    TapaConcat(r.foco, Camino(r, p), p.marcos);
  }

  /** Every position is below itself. */
  lemma DebajoReflexiva(p: Posicion)
    ensures Debajo(p, p)
  {
    assert Camino(p, p) == [];
  }

  /** Below a child is below its parent. */
  lemma DebajoSube(r: Posicion, q: Posicion)
    requires q.marcos != [] && Debajo(r, q)
    ensures Debajo(r, Sube(q))
    ensures Camino(r, Sube(q)) == Camino(r, q) + [q.marcos[0]]
  {
    var p := Sube(q);
    var c := Camino(r, q);
    assert r.marcos == c + q.marcos;
    assert q.marcos == [q.marcos[0]] + p.marcos;
    assert Camino(r, p) == c + [q.marcos[0]];
    TapaConcat(r.foco, c, [q.marcos[0]]);
  }

  /** The number of vertices of a tree, split around a position. */
  function TamanoMarcos(ms: seq<Marco>): nat
    decreases |ms|
  {
    if ms == [] then 0
    else match ms[0]
      case MarcoIzq(x, d, h, c) => 1 + Tamano(d) + TamanoMarcos(ms[1..])
      case MarcoDer(i, x, h, c) => 1 + Tamano(i) + TamanoMarcos(ms[1..])
  }

  lemma {:induction false} TamanoTapa(f: Vertice, ms: seq<Marco>)
    ensures Tamano(Tapa(f, ms)) == Tamano(f) + TamanoMarcos(ms)
    decreases |ms|
  {
    if ms != [] {
      TamanoTapa(Pega(ms[0], f), ms[1..]);
    }
  }

  // The capability surface of a vertex handle (VerticeArbolBinario).

  predicate HayPadre(p: Posicion) { p.marcos != [] }
  predicate HayIzquierdo(p: Posicion) { p.foco.V? && p.foco.izquierdo.V? }
  predicate HayDerecho(p: Posicion) { p.foco.V? && p.foco.derecho.V? }

  /** padre(): the parent, or NoSuchElementException when there is none. */
  function PadreDe(p: Posicion): (r: Resultado<Posicion>)
    ensures r.Exito? <==> HayPadre(p)
    ensures r.Exito? ==> Arbol(r.valor) == Arbol(p) && |r.valor.marcos| == |p.marcos| - 1
    ensures r.Exito? ==> r.valor.foco.V? && r.valor.marcos == p.marcos[1..]
    ensures r.Exito? ==> (p.marcos[0].MarcoIzq? ==> r.valor.foco.izquierdo == p.foco)
    ensures r.Exito? ==> (p.marcos[0].MarcoDer? ==> r.valor.foco.derecho == p.foco)
    ensures r.Falla? ==> r.error == NoHayElemento
  {
    if !HayPadre(p) then Falla(NoHayElemento) else Exito(Sube(p))
  }

  /** izquierdo(): the left child, or NoSuchElementException when there is none. */
  function IzquierdoDe(p: Posicion): (r: Resultado<Posicion>)
    ensures r.Exito? <==> HayIzquierdo(p)
    ensures r.Exito? ==> Arbol(r.valor) == Arbol(p) && r.valor.foco == p.foco.izquierdo
    ensures r.Exito? ==> HayPadre(r.valor) && Sube(r.valor) == p
    ensures r.Falla? ==> r.error == NoHayElemento
  {
    if !HayIzquierdo(p) then Falla(NoHayElemento) else Exito(BajaIzq(p))
  }

  /** derecho(): the right child, or NoSuchElementException when there is none. */
  function DerechoDe(p: Posicion): (r: Resultado<Posicion>)
    ensures r.Exito? <==> HayDerecho(p)
    ensures r.Exito? ==> Arbol(r.valor) == Arbol(p) && r.valor.foco == p.foco.derecho
    ensures r.Exito? ==> HayPadre(r.valor) && Sube(r.valor) == p
    ensures r.Falla? ==> r.error == NoHayElemento
  {
    if !HayDerecho(p) then Falla(NoHayElemento) else Exito(BajaDer(p))
  }

  /** Vertice.profundidad(Vertice): 0 without a parent, else one more than the parent's. */
  function Profundidad(p: Posicion): nat
    decreases |p.marcos|
  {
    if p.marcos == [] then 0 else 1 + Profundidad(Sube(p))
  }

  /** The depth of a vertex is the number of its ancestors. */
  lemma {:induction false} ProfundidadEsNumeroDeAncestros(p: Posicion)
    ensures Profundidad(p) == |p.marcos|
    decreases |p.marcos|
  {
    if p.marcos != [] {
      ProfundidadEsNumeroDeAncestros(Sube(p));
    }
  }
}
