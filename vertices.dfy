// Vertices of the binary trees: the `Vertice` inner class of ArbolBinario
// (with the cached height of VerticeAVL and the color of VerticeRojinegro
// folded into one record) and the read-only recursive queries on them.

module Vertices {

  /** The colors of a red-black vertex; NINGUNO is the color of a fresh vertex. */
  datatype Color = ROJO | NEGRO | NINGUNO

  /** The exceptions the library signals. */
  datatype Error =
    | ArgumentoInvalido     // IllegalArgumentException
    | OperacionNoSoportada  // UnsupportedOperationException
    | NoHayElemento         // NoSuchElementException
    | ConversionInvalida    // ClassCastException

  /** A reference that may be `null`. */
  datatype Option<T> = None | Some(value: T)

  /** Either a value or the exception that was thrown instead. */
  datatype Resultado<T> = Exito(valor: T) | Falla(error: Error)

  /** An owned subtree: `Nulo` is the Java `null` child. The `altura` field is
      only read by the AVL engine and `color` only by the red-black engine. */
  datatype Vertice =
    | Nulo
    | V(izquierdo: Vertice, elemento: int, derecho: Vertice, altura: int, color: Color)

  /** nuevoVertice: a childless vertex; the Java defaults are altura 0 and color NINGUNO. */
  function NuevoVertice(x: int): (v: Vertice)
    ensures v.V? && v.izquierdo == Nulo && v.derecho == Nulo && v.elemento == x
  {
    V(Nulo, x, Nulo, 0, NINGUNO)
  }

  /** ArbolBinario.max. */
  function Max(a: int, b: int): (m: int)
    ensures m >= a && m >= b
    ensures m == a || m == b
  {
    if a >= b then a else b
  }

  /** Vertice.altura(Vertice): -1 for null, one more than the higher child otherwise. */
  function Altura(v: Vertice): int
  {
    if v.Nulo? then -1 else 1 + Max(Altura(v.izquierdo), Altura(v.derecho))
  }

  /** The number of vertices of a subtree. */
  function Tamano(v: Vertice): nat
  {
    if v.Nulo? then 0 else Tamano(v.izquierdo) + 1 + Tamano(v.derecho)
  }

  function InOrden(v: Vertice): seq<int>
  {
    if v.Nulo? then [] else InOrden(v.izquierdo) + [v.elemento] + InOrden(v.derecho)
  }

  function PreOrden(v: Vertice): seq<int>
  {
    if v.Nulo? then [] else [v.elemento] + PreOrden(v.izquierdo) + PreOrden(v.derecho)
  }

  function PostOrden(v: Vertice): seq<int>
  {
    if v.Nulo? then [] else PostOrden(v.izquierdo) + PostOrden(v.derecho) + [v.elemento]
  }

  /** The multiset of elements stored in a subtree. */
  function Elementos(v: Vertice): multiset<int>
  {
    if v.Nulo? then multiset{} else Elementos(v.izquierdo) + multiset{v.elemento} + Elementos(v.derecho)
  }

  /** The height of a subtree is -1 exactly when it is empty, and it is below its size. */
  lemma {:induction false} AlturaAcotada(v: Vertice)
    ensures -1 <= Altura(v) < Tamano(v)
    ensures Altura(v) == -1 <==> v.Nulo?
  {
    if v.V? {
      AlturaAcotada(v.izquierdo);
      AlturaAcotada(v.derecho);
    }
  }

  lemma {:induction false} InOrdenPermuta(v: Vertice)
    ensures |InOrden(v)| == Tamano(v) && multiset(InOrden(v)) == Elementos(v)
  {
    if v.V? {
      InOrdenPermuta(v.izquierdo);
      InOrdenPermuta(v.derecho);
    }
  }

  lemma {:induction false} PreOrdenPermuta(v: Vertice)
    ensures |PreOrden(v)| == Tamano(v) && multiset(PreOrden(v)) == Elementos(v)
  {
    if v.V? {
      PreOrdenPermuta(v.izquierdo);
      PreOrdenPermuta(v.derecho);
    }
  }

  lemma {:induction false} PostOrdenPermuta(v: Vertice)
    ensures |PostOrden(v)| == Tamano(v) && multiset(PostOrden(v)) == Elementos(v)
  {
    if v.V? {
      PostOrdenPermuta(v.izquierdo);
      PostOrdenPermuta(v.derecho);
    }
  }

  /** The three depth-first orders list the same multiset of elements, once per vertex. */
  lemma RecorridosPermutan(v: Vertice)
    ensures |InOrden(v)| == |PreOrden(v)| == |PostOrden(v)| == Tamano(v)
    ensures multiset(InOrden(v)) == multiset(PreOrden(v)) == multiset(PostOrden(v)) == Elementos(v)
  {
    InOrdenPermuta(v);
    PreOrdenPermuta(v);
    PostOrdenPermuta(v);
  }

  /** Vertice.equals(Vertice, Vertice): two nulls are equal, a null and a
      non-null are not, otherwise the elements and both children must agree.
      The cached height and the color take no part. */
  predicate Iguales(a: Vertice, b: Vertice)
  {
    if a.Nulo? && b.Nulo? then true
    else if a.Nulo? || b.Nulo? then false
    else a.elemento == b.elemento && Iguales(a.izquierdo, b.izquierdo) && Iguales(a.derecho, b.derecho)
  }

  /** The shape of a subtree with its elements: the fields `altura` and `color` erased. */
  function Forma(v: Vertice): Vertice
  {
    if v.Nulo? then Nulo else V(Forma(v.izquierdo), v.elemento, Forma(v.derecho), 0, NINGUNO)
  }

  /** Vertex equality is exactly equality of shape and elements. */
  lemma {:induction false} IgualesSiMismaForma(a: Vertice, b: Vertice)
    ensures Iguales(a, b) <==> Forma(a) == Forma(b)
  {
    if a.V? && b.V? {
      IgualesSiMismaForma(a.izquierdo, b.izquierdo);
      IgualesSiMismaForma(a.derecho, b.derecho);
    }
  }

  /** Vertex equality is reflexive, symmetric and transitive. */
  lemma IgualesEsEquivalencia(a: Vertice, b: Vertice, c: Vertice)
    ensures Iguales(a, a)
    ensures Iguales(a, b) == Iguales(b, a)
    ensures Iguales(a, b) && Iguales(b, c) ==> Iguales(a, c)
  {
    IgualesSiMismaForma(a, a);
    IgualesSiMismaForma(a, b);
    IgualesSiMismaForma(b, a);
    IgualesSiMismaForma(b, c);
    IgualesSiMismaForma(a, c);
  }

  /** Equal vertices store the same in-order sequence (hence the same elements). */
  lemma {:induction false} IgualesMismoInOrden(a: Vertice, b: Vertice)
    requires Iguales(a, b)
    ensures InOrden(a) == InOrden(b) && Tamano(a) == Tamano(b) && Altura(a) == Altura(b)
  {
    if a.V? {
      IgualesMismoInOrden(a.izquierdo, b.izquierdo);
      IgualesMismoInOrden(a.derecho, b.derecho);
    }
  }

  /** A subtree is sorted: non-decreasing in-order sequence. */
  predicate Ordenada(s: seq<int>)
  {
    forall i, j :: 0 <= i < j < |s| ==> s[i] <= s[j]
  }
}
