// The read-only members of the abstract class ArbolBinario, over the root
// vertex `raiz` and the counter `elementos` of a tree: height, emptiness,
// the root handle, breadth-first search and tree equality.

module ArbolBinario {
  import opened Vertices
  import opened Posiciones

  /** The non-null children of a vertex, left first, as handles. */
  function Hijos(p: Posicion): (hs: seq<Posicion>)
    requires p.foco.V?
    ensures forall i :: 0 <= i < |hs| ==> hs[i].foco.V? && Arbol(hs[i]) == Arbol(p)
  {
    (if p.foco.izquierdo.V? then [BajaIzq(p)] else []) +
    (if p.foco.derecho.V? then [BajaDer(p)] else [])
  }

  /** The number of vertices held below the handles of a queue. */
  function TamanoCola(cola: seq<Posicion>): nat
  {
    if cola == [] then 0 else Tamano(cola[0].foco) + TamanoCola(cola[1..])
  }

  lemma {:induction false} TamanoColaConcat(a: seq<Posicion>, b: seq<Posicion>)
    ensures TamanoCola(a + b) == TamanoCola(a) + TamanoCola(b)
  {
    if a != [] {
      assert (a + b)[0] == a[0];
      assert (a + b)[1..] == a[1..] + b;
      TamanoColaConcat(a[1..], b);
      assert TamanoCola(a + b) == Tamano(a[0].foco) + TamanoCola(a[1..] + b);
    } else {
      assert a + b == b;
    }
  }

  lemma TamanoHijos(p: Posicion)
    requires p.foco.V?
    ensures TamanoCola(Hijos(p)) == Tamano(p.foco) - 1
  {
    var i := if p.foco.izquierdo.V? then [BajaIzq(p)] else [];
    var d := if p.foco.derecho.V? then [BajaDer(p)] else [];
    TamanoColaConcat(i, d);
  }

  /** The handles visited from a queue, in breadth-first order: take the
      first handle, enqueue its non-null children. */
  function NivelesCola(cola: seq<Posicion>): (ps: seq<Posicion>)
    requires forall i :: 0 <= i < |cola| ==> cola[i].foco.V?
    ensures forall i :: 0 <= i < |ps| ==> ps[i].foco.V?
    decreases TamanoCola(cola)
  {
    if cola == [] then []
    else
      var resto := cola[1..] + Hijos(cola[0]);
      TamanoColaConcat(cola[1..], Hijos(cola[0]));
      TamanoHijos(cola[0]);
      [cola[0]] + NivelesCola(resto)
  }

  /** The vertices of a tree in breadth-first order. */
  function Niveles(raiz: Vertice): (ps: seq<Posicion>)
    ensures forall i :: 0 <= i < |ps| ==> ps[i].foco.V?
  {
    if raiz.Nulo? then [] else NivelesCola([Raiz(raiz)])
  }

  /** The elements of a sequence of handles. */
  function ElementosDe(ps: seq<Posicion>): seq<int>
    requires forall i :: 0 <= i < |ps| ==> ps[i].foco.V?
  {
    if ps == [] then [] else [ps[0].foco.elemento] + ElementosDe(ps[1..])
  }

  /** The elements of two concatenated sequences of handles. */
  lemma {:induction false} ElementosDeConcat(a: seq<Posicion>, b: seq<Posicion>)
    requires forall i :: 0 <= i < |a| ==> a[i].foco.V?
    requires forall i :: 0 <= i < |b| ==> b[i].foco.V?
    ensures ElementosDe(a + b) == ElementosDe(a) + ElementosDe(b)
  {
    if a != [] {
      assert (a + b)[0] == a[0];
      assert (a + b)[1..] == a[1..] + b;
      ElementosDeConcat(a[1..], b);
    } else {
      assert a + b == b;
    }
  }

  /** The elements held below the handles of a queue. */
  function ElementosCola(cola: seq<Posicion>): multiset<int>
  {
    if cola == [] then multiset{} else Elementos(cola[0].foco) + ElementosCola(cola[1..])
  }

  lemma {:induction false} ElementosColaConcat(a: seq<Posicion>, b: seq<Posicion>)
    ensures ElementosCola(a + b) == ElementosCola(a) + ElementosCola(b)
  {
    if a != [] {
      assert (a + b)[0] == a[0];
      assert (a + b)[1..] == a[1..] + b;
      ElementosColaConcat(a[1..], b);
      assert ElementosCola(a + b) == Elementos(a[0].foco) + ElementosCola(a[1..] + b);
    } else {
      assert a + b == b;
    }
  }

  /** Breadth-first order visits every element of the queue exactly once. */
  lemma {:induction false} NivelesColaPermuta(cola: seq<Posicion>)
    requires forall i :: 0 <= i < |cola| ==> cola[i].foco.V?
    ensures multiset(ElementosDe(NivelesCola(cola))) == ElementosCola(cola)
    decreases TamanoCola(cola)
  {
    if cola != [] {
      var p := cola[0];
      var resto := cola[1..] + Hijos(p);
      TamanoColaConcat(cola[1..], Hijos(p));
      TamanoHijos(p);
      NivelesColaPermuta(resto);
      var ps := NivelesCola(resto);
      assert NivelesCola(cola) == [p] + ps;
      ElementosDeCons(p, ps);
      ElementosColaConcat(cola[1..], Hijos(p));
      ElementosHijos(p);
      assert ElementosCola(cola) == Elementos(p.foco) + ElementosCola(cola[1..]);
    }
  }

  lemma ElementosDeCons(p: Posicion, ps: seq<Posicion>)
    requires p.foco.V? && forall i :: 0 <= i < |ps| ==> ps[i].foco.V?
    ensures multiset(ElementosDe([p] + ps)) == multiset{p.foco.elemento} + multiset(ElementosDe(ps))
  {
    assert ([p] + ps)[1..] == ps;
  }

  lemma ElementosHijos(p: Posicion)
    requires p.foco.V?
    ensures ElementosCola(Hijos(p)) + multiset{p.foco.elemento} == Elementos(p.foco)
  {
    var i := if p.foco.izquierdo.V? then [BajaIzq(p)] else [];
    var d := if p.foco.derecho.V? then [BajaDer(p)] else [];
    ElementosColaConcat(i, d);
  }

  /** Every handle visited from a queue belongs to the tree of the queue. */
  lemma {:induction false} NivelesColaMismoArbol(cola: seq<Posicion>, t: Vertice)
    requires forall i :: 0 <= i < |cola| ==> cola[i].foco.V? && Arbol(cola[i]) == t
    ensures forall i :: 0 <= i < |NivelesCola(cola)| ==> NivelesCola(cola)[i].foco.V? && Arbol(NivelesCola(cola)[i]) == t
    decreases TamanoCola(cola)
  {
    if cola != [] {
      var resto := cola[1..] + Hijos(cola[0]);
      TamanoColaConcat(cola[1..], Hijos(cola[0]));
      TamanoHijos(cola[0]);
      NivelesColaMismoArbol(resto, t);
    }
  }

  /** The first handle of a sequence whose element equals `x`. */
  function PrimeroCon(ps: seq<Posicion>, x: int): (r: Option<Posicion>)
    requires forall i :: 0 <= i < |ps| ==> ps[i].foco.V?
    ensures r.Some? ==> r.value.foco.V?
  {
    if ps == [] then None
    else if ps[0].foco.elemento == x then Some(ps[0])
    else PrimeroCon(ps[1..], x)
  }

  /** The first match exists exactly when the element occurs; it holds the
      element and is a member of the sequence. */
  lemma {:induction false} PrimeroConCorrecto(ps: seq<Posicion>, x: int)
    requires forall i :: 0 <= i < |ps| ==> ps[i].foco.V?
    ensures PrimeroCon(ps, x).Some? <==> x in ElementosDe(ps)
    ensures PrimeroCon(ps, x).Some? ==> PrimeroCon(ps, x).value.foco.elemento == x
    ensures PrimeroCon(ps, x).Some? ==> PrimeroCon(ps, x).value in ps
  {
    if ps != [] {
      PrimeroConCorrecto(ps[1..], x);
    }
  }

  /** ArbolBinario.busca: null for an empty tree or a null element, otherwise
      the first vertex in breadth-first order holding the element, or null. */
  method Busca(raiz: Vertice, e: Option<int>) returns (r: Option<Posicion>)
    ensures raiz.Nulo? || e.None? ==> r.None?
    ensures e.Some? ==> r == PrimeroCon(Niveles(raiz), e.value)
  {
    if raiz.Nulo? || e.None? {
      return None;
    }
    var x := e.value;
    var cola := [Raiz(raiz)];
    while cola != []
      invariant forall i :: 0 <= i < |cola| ==> cola[i].foco.V?
      invariant PrimeroCon(NivelesCola(cola), x) == PrimeroCon(Niveles(raiz), x)
      decreases TamanoCola(cola)
    {
      var v := cola[0];
      TamanoColaConcat(cola[1..], Hijos(v));
      TamanoHijos(v);
      assert NivelesCola(cola) == [v] + NivelesCola(cola[1..] + Hijos(v));
      if v.foco.elemento == x {
        return Some(v);
      }
      cola := cola[1..] + Hijos(v);
    }
    return None;
  }

  /** What `busca` finds: a handle into the same tree holding the element,
      present exactly when the element is stored in the tree. */
  lemma BuscaEncuentra(raiz: Vertice, x: int)
    ensures PrimeroCon(Niveles(raiz), x).Some? <==> x in Elementos(raiz)
    ensures PrimeroCon(Niveles(raiz), x).Some? ==>
              PrimeroCon(Niveles(raiz), x).value.foco.elemento == x &&
              Arbol(PrimeroCon(Niveles(raiz), x).value) == raiz
  {
    if raiz.V? {
      var ps := NivelesCola([Raiz(raiz)]);
      NivelesColaPermuta([Raiz(raiz)]);
      NivelesColaMismoArbol([Raiz(raiz)], raiz);
      PrimeroConCorrecto(ps, x);
      assert ElementosCola([Raiz(raiz)]) == Elementos(raiz);
    }
  }

  /** ArbolBinario.contiene: busca found something. */
  method Contiene(raiz: Vertice, e: Option<int>) returns (b: bool)
    ensures b <==> e.Some? && e.value in Elementos(raiz)
  {
    var r := Busca(raiz, e);
    if e.Some? {
      BuscaEncuentra(raiz, e.value);
    }
    b := r.Some?;
  }

  /** ArbolBinario.esVacia. */
  predicate EsVacia(raiz: Vertice) { raiz.Nulo? }

  /** ArbolBinario.altura: -1 for the empty tree, the height of the root otherwise. */
  function AlturaArbol(raiz: Vertice): (h: int)
    ensures h == -1 <==> EsVacia(raiz)
    ensures forall p: Posicion :: Arbol(p) == raiz ==> Profundidad(p) <= h + 1
    ensures raiz.V? ==> exists p: Posicion :: Arbol(p) == raiz && p.foco.V? && Profundidad(p) == h
  {
    AlturaAcotada(raiz);
    forall p: Posicion | Arbol(p) == raiz ensures Profundidad(p) <= Altura(raiz) + 1 {
      ProfundidadAcotada(p.foco, p.marcos);
      ProfundidadEsNumeroDeAncestros(p);
      AlturaAcotada(p.foco);
    }
    AlturaAlcanzada(raiz);
    if EsVacia(raiz) then -1 else Altura(raiz)
  }

  /** A deepest vertex below a position: keep descending into a child of
      greatest height until a leaf is reached. */
  function MasProfundo(p: Posicion): (q: Posicion)
    requires p.foco.V?
    ensures q.foco.V? && Arbol(q) == Arbol(p)
    ensures |q.marcos| == |p.marcos| + Altura(p.foco)
    decreases Tamano(p.foco)
  {
    var v := p.foco;
    AlturaAcotada(v.izquierdo);
    AlturaAcotada(v.derecho);
    if v.izquierdo.V? && Altura(v.izquierdo) >= Altura(v.derecho) then MasProfundo(BajaIzq(p))
    else if v.derecho.V? then MasProfundo(BajaDer(p))
    else p
  }

  /** The height of a non-empty tree is the depth of some vertex. */
  lemma AlturaAlcanzada(raiz: Vertice)
    ensures raiz.V? ==> exists p: Posicion :: Arbol(p) == raiz && p.foco.V? && Profundidad(p) == Altura(raiz)
  {
    if raiz.V? {
      var q := MasProfundo(Raiz(raiz));
      ProfundidadEsNumeroDeAncestros(q);
    }
  }

  /** A position is never deeper than one level below the tree's height. */
  lemma {:induction false} ProfundidadAcotada(f: Vertice, ms: seq<Marco>)
    ensures |ms| + Altura(f) <= Altura(Tapa(f, ms))
    decreases |ms|
  {
    if ms != [] {
      ProfundidadAcotada(Pega(ms[0], f), ms[1..]);
    }
  }

  /** ArbolBinario.raiz: the root handle, NoSuchElementException on an empty tree. */
  function RaizDe(raiz: Vertice): (r: Resultado<Posicion>)
    ensures r.Falla? <==> EsVacia(raiz)
    ensures r.Falla? ==> r.error == NoHayElemento
    ensures r.Exito? ==> Arbol(r.valor) == raiz && !HayPadre(r.valor) && r.valor.foco.V?
  {
    if EsVacia(raiz) then Falla(NoHayElemento) else Exito(Raiz(raiz))
  }

  /** ArbolBinario.equals, for two trees whose counters are consistent: two
      empty trees are equal; otherwise the counters must agree and the roots
      be equal vertices. */
  function ArbolesIguales(raiz1: Vertice, elementos1: int, raiz2: Vertice, elementos2: int): (b: bool)
    requires elementos1 == Tamano(raiz1) && elementos2 == Tamano(raiz2)
    ensures b <==> Forma(raiz1) == Forma(raiz2)
  {
    IgualesSiMismaForma(raiz1, raiz2);
    MismaFormaMismoTamano(raiz1, raiz2);
    if raiz1.Nulo? && raiz2.Nulo? then true
    else elementos1 == elementos2 && Iguales(raiz1, raiz2)
  }

  lemma {:induction false} MismaFormaMismoTamano(a: Vertice, b: Vertice)
    ensures Forma(a) == Forma(b) ==> Tamano(a) == Tamano(b)
  {
    if a.V? && b.V? {
      MismaFormaMismoTamano(a.izquierdo, b.izquierdo);
      MismaFormaMismoTamano(a.derecho, b.derecho);
    }
  }
}
