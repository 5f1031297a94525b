// ArbolRojinegro: an ordered tree whose vertices carry a color and which,
// after every insertion and deletion, recolors and rotates around the
// changed place until the five red-black rules hold again.

module Rojinegro {
  import opened Vertices
  import opened Posiciones
  import opened Ordenado

  /** esRojo: a missing vertex is not red, so absent children count as black. */
  predicate EsRojo(v: Vertice)
  {
    v.V? && v.color == ROJO
  }

  /** Rule 1: a vertex is black or red (a fresh vertex is NINGUNO until colored). */
  predicate ColorValido(c: Color)
  {
    c == ROJO || c == NEGRO
  }

  /** The number of black vertices on the way down a subtree (along the left
      branch; in a valid subtree every way down counts the same). */
  function AlturaNegra(v: Vertice): nat
  {
    if v.Nulo? then 0 else AlturaNegra(v.izquierdo) + (if v.color == NEGRO then 1 else 0)
  }

  /** A valid red-black subtree: rule 1 at every vertex, rule 4 (a red vertex
      has two black children, null children being black by rule 3), and
      rule 5 (the two children of every vertex have the same black height). */
  predicate RN(v: Vertice)
  {
    v.Nulo? ||
    (ColorValido(v.color) && (v.color == ROJO ==> !EsRojo(v.izquierdo) && !EsRojo(v.derecho)) &&
     RN(v.izquierdo) && RN(v.derecho) && AlturaNegra(v.izquierdo) == AlturaNegra(v.derecho))
  }

  /** The five rules of the class's doc comment: a valid subtree with a black root (rule 2). */
  predicate ArbolRNValido(t: Vertice)
  {
    RN(t) && !EsRojo(t)
  }

  /** The black counts of all the ways from a vertex down to a null leaf. */
  function NegrosEnCaminos(v: Vertice): set<nat>
  {
    if v.Nulo? then {0}
    else
      var c := if v.color == NEGRO then 1 else 0;
      set k | k in NegrosEnCaminos(v.izquierdo) + NegrosEnCaminos(v.derecho) :: k + c
  }

  /** Rule 5 as the doc comment states it: in a valid subtree every way from
      the top down to a null leaf meets the same number of black vertices. */
  lemma {:induction false} CaminosMismoNegro(v: Vertice)
    requires RN(v)
    ensures NegrosEnCaminos(v) == {AlturaNegra(v)}
  {
    if v.V? {
      CaminosMismoNegro(v.izquierdo);
      CaminosMismoNegro(v.derecho);
      var c := if v.color == NEGRO then 1 else 0;
      assert NegrosEnCaminos(v.izquierdo) + NegrosEnCaminos(v.derecho) == {AlturaNegra(v.izquierdo)};
      assert AlturaNegra(v) == AlturaNegra(v.izquierdo) + c;
    }
  }

  /** getColor: the color of a vertex; a null vertex raises ClassCastException. */
  function GetColor(vertice: Option<Posicion>): (r: Resultado<Color>)
    ensures r.Falla? <==> vertice.None? || vertice.value.foco.Nulo?
    ensures r.Falla? ==> r.error == ConversionInvalida
    ensures r.Exito? ==> r.valor == vertice.value.foco.color && (r.valor == ROJO <==> EsRojo(vertice.value.foco))
  {
    if vertice.None? || vertice.value.foco.Nulo? then Falla(ConversionInvalida)
    else Exito(vertice.value.foco.color)
  }

  // ---------------------------------------------------------------------
  // The family of a vertex. A handle on a null child is `None`, as in the
  // source, where these helpers return null.

  /** A handle on a real vertex, `None` for a null child. */
  function Manejador(p: Posicion): (r: Option<Posicion>)
    ensures r.Some? <==> p.foco.V?
    ensures r.Some? ==> r.value == p
  {
    if p.foco.V? then Some(p) else None
  }

  /** getPadre: null for a null vertex or the root. */
  function GetPadre(v: Option<Posicion>): (r: Option<Posicion>)
    ensures r.Some? <==> v.Some? && v.value.marcos != []
    ensures r.Some? ==> r.value.foco.V? && Arbol(r.value) == Arbol(v.value) &&
                        r.value.marcos == v.value.marcos[1..]
  {
    if v.None? || v.value.marcos == [] then None else Some(Sube(v.value))
  }

  /** getAbuelo: the parent of the parent. */
  function GetAbuelo(v: Option<Posicion>): (r: Option<Posicion>)
    ensures r.Some? <==> v.Some? && |v.value.marcos| >= 2
    ensures r.Some? ==> r.value.foco.V? && Arbol(r.value) == Arbol(v.value) &&
                        r.value.marcos == v.value.marcos[2..]
  {
    GetPadre(GetPadre(v))
  }

  /** esIzquierdo: whether a vertex is its parent's left child (the source
      compares references, which the side of the first ancestor records). */
  function EsIzquierdo(v: Posicion): (b: bool)
    requires v.marcos != []
    ensures b ==> Sube(v).foco.izquierdo == v.foco
    ensures !b ==> Sube(v).foco.derecho == v.foco
  {
    v.marcos[0].MarcoIzq?
  }

  /** The child of an ancestor that is not on the path. */
  function Hermano(m: Marco): Vertice
  {
    match m
    case MarcoIzq(x, d, h, c) => d
    case MarcoDer(i, x, h, c) => i
  }

  /** The handle on the other child of a vertex's parent. */
  function Otro(v: Posicion): (r: Posicion)
    requires v.marcos != []
    ensures r.foco == Hermano(v.marcos[0]) && r.marcos != [] && Sube(r) == Sube(v) && Arbol(r) == Arbol(v)
    ensures EsIzquierdo(r) == !EsIzquierdo(v)
  {
    var p := Sube(v);
    if EsIzquierdo(v) then BajaDer(p) else BajaIzq(p)
  }

  /** getHermano: the parent's other child; null when there is no parent or
      the other child is missing. */
  function GetHermano(v: Option<Posicion>): (r: Option<Posicion>)
    ensures v.None? || v.value.marcos == [] ==> r.None?
    ensures v.Some? && v.value.marcos != [] ==>
              r == Manejador(Otro(v.value)) && (r.Some? <==> Hermano(v.value.marcos[0]).V?)
  {
    if v.None? || v.value.marcos == [] then None else Manejador(Otro(v.value))
  }

  /** getTio: the grandparent's other child, i.e. the parent's sibling. */
  function GetTio(v: Option<Posicion>): (r: Option<Posicion>)
    ensures v.None? || |v.value.marcos| < 2 ==> r.None?
    ensures v.Some? && |v.value.marcos| >= 2 ==>
              r == GetHermano(GetPadre(v)) && (r.Some? <==> Hermano(v.value.marcos[1]).V?)
    ensures r.Some? ==> r.value.foco == Hermano(v.value.marcos[1])
  {
    if GetAbuelo(v).None? then None else GetHermano(GetPadre(v))
  }

  // ---------------------------------------------------------------------
  // The rules seen from a place in the tree.

  /** The ancestors of a place are as in a valid tree whose subtree at that
      place has black height `n` and is red when `rojo` holds: each
      ancestor has a valid color, its off-path child is valid with the same
      black height, a red ancestor has no red child, and the topmost one (the
      root) is black. */
  predicate MarcosRN(ms: seq<Marco>, n: nat, rojo: bool)
    decreases |ms|
  {
    ms == [] ||
    (ColorValido(ms[0].color) && RN(Hermano(ms[0])) && AlturaNegra(Hermano(ms[0])) == n &&
     (ms[0].color == ROJO ==> !rojo && !EsRojo(Hermano(ms[0]))) &&
     (|ms| == 1 ==> ms[0].color == NEGRO) &&
     MarcosRN(ms[1..], n + (if ms[0].color == NEGRO then 1 else 0), ms[0].color == ROJO))
  }

  /** A tree is valid exactly when the subtree at a place is and the
      ancestors fit its black height and color. */
  lemma {:induction false} MarcosRNTapa(f: Vertice, ms: seq<Marco>)
    ensures ArbolRNValido(Tapa(f, ms)) <==> RN(f) && MarcosRN(ms, AlturaNegra(f), EsRojo(f)) && (ms == [] ==> !EsRojo(f))
    decreases |ms|
  {
    if ms != [] {
      MarcosRNTapa(Pega(ms[0], f), ms[1..]);
    }
  }

  /** Ancestors that accept a red subtree accept a black one. */
  lemma MarcosRNNegro(ms: seq<Marco>, n: nat)
    requires MarcosRN(ms, n, true)
    ensures MarcosRN(ms, n, false)
  {
  }

  /** Replacing an ancestor by one with the same off-path child and color (as
      intercambiaEliminable does by overwriting an element) keeps the frames valid. */
  lemma {:induction false} MarcosRNCambia(ms: seq<Marco>, k: int, m: Marco, n: nat, rojo: bool)
    requires 0 <= k < |ms| && Hermano(m) == Hermano(ms[k]) && m.color == ms[k].color
    ensures MarcosRN(ms[k := m], n, rojo) == MarcosRN(ms, n, rojo)
    decreases |ms|
  {
    if k > 0 {
      assert ms[k := m][1..] == ms[1..][k - 1 := m];
      MarcosRNCambia(ms[1..], k - 1, m, n + (if ms[0].color == NEGRO then 1 else 0), ms[0].color == ROJO);
    } else {
      assert ms[k := m][1..] == ms[1..];
    }
  }

  // ---------------------------------------------------------------------
  // Insertion.

  /** An ancestor with another off-path child. */
  function ConHermano(m: Marco, h: Vertice): (r: Marco)
    ensures Hermano(r) == h && r.elemento == m.elemento && r.color == m.color && r.MarcoIzq? == m.MarcoIzq?
  {
    match m
    case MarcoIzq(x, d, a, c) => MarcoIzq(x, h, a, c)
    case MarcoDer(i, x, a, c) => MarcoDer(h, x, a, c)
  }

  /** A subtree with another color at its top but the same in-order sequence. */
  lemma ColorMismoInOrden(v: Vertice, c: Color)
    requires v.V?
    ensures InOrden(v.(color := c)) == InOrden(v)
  {
  }

  /** The red-black insertion invariant at the vertex `v` being fixed: its
      subtree is valid and red, and the ancestors fit it except that its
      parent may be red too. */
  predicate PendienteAgrega(z: Posicion)
  {
    z.foco.V? && z.foco.color == ROJO && RN(z.foco) && MarcosRN(z.marcos, AlturaNegra(z.foco), false)
  }

  /** The red-uncle case of rebalanceoAgrega: the parent and the uncle become
      black, the grandparent red, and the fix-up continues at the
      grandparent, with no rotation. */
  function RecoloreaTio(z: Posicion): (r: Posicion)
    requires |z.marcos| >= 2
    ensures r.marcos == z.marcos[2..]
    ensures r.foco.V? && r.foco.color == ROJO
    ensures r.foco.elemento == z.marcos[1].elemento
  {
    var padre := z.marcos[0].(color := NEGRO);
    var tio := Hermano(z.marcos[1]);
    var abuelo := ConHermano(z.marcos[1], Negro(tio)).(color := ROJO);
    Posicion(Pega(abuelo, Pega(padre, z.foco)), z.marcos[2..])
  }

  /** The red-uncle case keeps the insertion invariant two levels up and
      leaves the in-order sequence of the tree as it was. */
  lemma RecoloreaTioCorrecto(z: Posicion)
    requires PendienteAgrega(z) && |z.marcos| >= 2 && z.marcos[0].color == ROJO && EsRojo(Hermano(z.marcos[1]))
    ensures PendienteAgrega(RecoloreaTio(z))
    ensures InOrden(Arbol(RecoloreaTio(z))) == InOrden(Arbol(z))
  {
    var ms := z.marcos;
    assert ms[1..][1..] == ms[2..] && ms[1..][0] == ms[1];
    var g := Pega(ms[1], Pega(ms[0], z.foco));
    assert Arbol(z) == Tapa(Pega(ms[0], z.foco), ms[1..]);
    assert Arbol(z) == Tapa(g, ms[2..]);
    var n := AlturaNegra(z.foco);
    assert MarcosRN(ms[1..], n, true);
    assert MarcosRN(ms[2..], n + 1, false);
    var r := RecoloreaTio(z).foco;
    var t := Hermano(ms[1]);
    var tioNegro := Negro(t);
    var padre := Pega(ms[0].(color := NEGRO), z.foco);
    assert RN(tioNegro) && AlturaNegra(tioNegro) == n + 1;
    assert RN(padre) && AlturaNegra(padre) == n + 1;
    assert r == Pega(ConHermano(ms[1], tioNegro).(color := ROJO), padre);
    assert RN(r) && AlturaNegra(r) == n + 1;
    var tio := Hermano(ms[1]);
    ColorMismoInOrden(tio, NEGRO);
    MismoInOrdenTapa(g, RecoloreaTio(z).foco, ms[2..]);
  }

  /** The uncle-black cases of rebalanceoAgrega: when the vertex and its
      parent zig-zag, rotate at the parent to straighten them; then the
      (new) parent becomes black, the grandparent red, and the grandparent
      is rotated away from the parent's side. The result is the subtree now
      at the grandparent's place. */
  function GiraAgrega(v: Vertice, padre: Marco, abuelo: Marco): Vertice
    requires v.V?
  {
    var p := Pega(padre, v);
    var p1 :=
      if abuelo.MarcoIzq? && padre.MarcoDer? then GiraIzquierdaEn(Raiz(p)).foco
      else if abuelo.MarcoDer? && padre.MarcoIzq? then GiraDerechaEn(Raiz(p)).foco
      else p;
    var g := Pega(abuelo.(color := ROJO), p1.(color := NEGRO));
    if abuelo.MarcoIzq? then GiraDerechaEn(Raiz(g)).foco else GiraIzquierdaEn(Raiz(g)).foco
  }

  /** What `GiraAgregaCorrecto` needs of the three vertices involved. */
  predicate CasoGiro(v: Vertice, padre: Marco, abuelo: Marco)
  {
    v.V? && v.color == ROJO && RN(v) &&
    padre.color == ROJO && RN(Hermano(padre)) && !EsRojo(Hermano(padre)) && AlturaNegra(Hermano(padre)) == AlturaNegra(v) &&
    abuelo.color == NEGRO && RN(Hermano(abuelo)) && !EsRojo(Hermano(abuelo)) && AlturaNegra(Hermano(abuelo)) == AlturaNegra(v)
  }

  /** What the uncle-black cases promise: a valid subtree with a black top,
      one more black level than the vertex, and the grandparent's in-order sequence. */
  predicate GiroBueno(r: Vertice, v: Vertice, padre: Marco, abuelo: Marco)
  {
    RN(r) && r.V? && r.color == NEGRO && AlturaNegra(r) == AlturaNegra(v) + 1 &&
    InOrden(r) == InOrden(Pega(abuelo, Pega(padre, v)))
  }

  /** The straight line on the left: one right rotation at the grandparent. */
  lemma GiroLineaIzquierda(v: Vertice, padre: Marco, abuelo: Marco)
    requires CasoGiro(v, padre, abuelo) && padre.MarcoIzq? && abuelo.MarcoIzq?
    ensures GiroBueno(GiraAgrega(v, padre, abuelo), v, padre, abuelo)
  {
    var bajo := V(Hermano(padre), abuelo.elemento, Hermano(abuelo), abuelo.altura, ROJO);
    assert RN(bajo) && AlturaNegra(bajo) == AlturaNegra(v);
    assert GiraAgrega(v, padre, abuelo) == V(v, padre.elemento, bajo, padre.altura, NEGRO);
  }

  /** The straight line on the right: one left rotation at the grandparent. */
  lemma GiroLineaDerecha(v: Vertice, padre: Marco, abuelo: Marco)
    requires CasoGiro(v, padre, abuelo) && padre.MarcoDer? && abuelo.MarcoDer?
    ensures GiroBueno(GiraAgrega(v, padre, abuelo), v, padre, abuelo)
  {
    var bajo := V(Hermano(abuelo), abuelo.elemento, Hermano(padre), abuelo.altura, ROJO);
    assert RN(bajo) && AlturaNegra(bajo) == AlturaNegra(v);
    assert GiraAgrega(v, padre, abuelo) == V(bajo, padre.elemento, v, padre.altura, NEGRO);
  }

  /** The zig-zag with the parent on the left: left rotation at the parent,
      right rotation at the grandparent. */
  lemma GiroZigZagIzquierda(v: Vertice, padre: Marco, abuelo: Marco)
    requires CasoGiro(v, padre, abuelo) && padre.MarcoDer? && abuelo.MarcoIzq?
    ensures GiroBueno(GiraAgrega(v, padre, abuelo), v, padre, abuelo)
  {
    var i := V(Hermano(padre), padre.elemento, v.izquierdo, padre.altura, ROJO);
    var d := V(v.derecho, abuelo.elemento, Hermano(abuelo), abuelo.altura, ROJO);
    assert RN(i) && AlturaNegra(i) == AlturaNegra(v);
    assert RN(d) && AlturaNegra(d) == AlturaNegra(v);
    assert GiraAgrega(v, padre, abuelo) == V(i, v.elemento, d, v.altura, NEGRO);
  }

  /** The zig-zag with the parent on the right: right rotation at the parent,
      left rotation at the grandparent. */
  lemma GiroZigZagDerecha(v: Vertice, padre: Marco, abuelo: Marco)
    requires CasoGiro(v, padre, abuelo) && padre.MarcoIzq? && abuelo.MarcoDer?
    ensures GiroBueno(GiraAgrega(v, padre, abuelo), v, padre, abuelo)
  {
    var i := V(Hermano(abuelo), abuelo.elemento, v.izquierdo, abuelo.altura, ROJO);
    var d := V(v.derecho, padre.elemento, Hermano(padre), padre.altura, ROJO);
    assert RN(i) && AlturaNegra(i) == AlturaNegra(v);
    assert RN(d) && AlturaNegra(d) == AlturaNegra(v);
    assert GiraAgrega(v, padre, abuelo) == V(i, v.elemento, d, v.altura, NEGRO);
  }

  /** The uncle-black cases restore the rules below the grandparent's place:
      a valid subtree with a black top and the grandparent's black height,
      with the same in-order sequence. */
  lemma GiraAgregaCorrecto(v: Vertice, padre: Marco, abuelo: Marco)
    requires CasoGiro(v, padre, abuelo)
    ensures GiroBueno(GiraAgrega(v, padre, abuelo), v, padre, abuelo)
  {
    if padre.MarcoIzq? && abuelo.MarcoIzq? {
      GiroLineaIzquierda(v, padre, abuelo);
    } else if padre.MarcoDer? && abuelo.MarcoDer? {
      GiroLineaDerecha(v, padre, abuelo);
    } else if abuelo.MarcoIzq? {
      GiroZigZagIzquierda(v, padre, abuelo);
    } else {
      GiroZigZagDerecha(v, padre, abuelo);
    }
  }

  /** The uncle-black cases seen from the whole tree: rotating at the
      grandparent's place repairs the tree, in-order unchanged. */
  lemma GiraAgregaArbol(z: Posicion)
    requires PendienteAgrega(z) && |z.marcos| >= 2 && z.marcos[0].color == ROJO && !EsRojo(Hermano(z.marcos[1]))
    ensures ArbolRNValido(Tapa(GiraAgrega(z.foco, z.marcos[0], z.marcos[1]), z.marcos[2..]))
    ensures InOrden(Tapa(GiraAgrega(z.foco, z.marcos[0], z.marcos[1]), z.marcos[2..])) == InOrden(Arbol(z))
  {
    var ms := z.marcos;
    assert ms[1..][1..] == ms[2..] && ms[1..][0] == ms[1];
    var n := AlturaNegra(z.foco);
    assert MarcosRN(ms[1..], n, true);
    assert ms[1].color == NEGRO;
    assert MarcosRN(ms[2..], n + 1, false);
    GiraAgregaCorrecto(z.foco, ms[0], ms[1]);
    var r := GiraAgrega(z.foco, ms[0], ms[1]);
    MarcosRNTapa(r, ms[2..]);
    var g := Pega(ms[1], Pega(ms[0], z.foco));
    assert Arbol(z) == Tapa(Pega(ms[0], z.foco), ms[1..]);
    assert Arbol(z) == Tapa(g, ms[2..]);
    MismoInOrdenTapa(g, r, ms[2..]);
  }

  /** rebalanceoAgrega stops when the parent is black: the tree is then valid. */
  lemma PadreNegroTermina(z: Posicion)
    requires PendienteAgrega(z) && z.marcos != [] && z.marcos[0].color != ROJO
    ensures ArbolRNValido(Arbol(z))
  {
    MarcosRNTapa(z.foco, z.marcos);
  }

  /** rebalanceoAgrega at the root: coloring it black makes the tree valid. */
  lemma RaizNegra(z: Posicion)
    requires PendienteAgrega(z) && z.marcos == []
    ensures ArbolRNValido(z.foco.(color := NEGRO))
    ensures InOrden(z.foco.(color := NEGRO)) == InOrden(Arbol(z))
  {
  }

  /** A fresh red leaf in the empty slot of a valid tree starts the insertion
      invariant, and the tree has the ordered insertion's in-order sequence. */
  lemma HojaRoja(t: Vertice, x: int)
    requires ArbolRNValido(t)
    ensures var q := Inserta(t, x);
      PendienteAgrega(Cambia(q, q.foco.(color := ROJO))) &&
      InOrden(Arbol(Cambia(q, q.foco.(color := ROJO)))) == InOrden(Arbol(q))
  {
    var q := Inserta(t, x);
    MarcosRNTapa(Nulo, q.marcos);
    ColorMismoInOrden(q.foco, ROJO);
    MismoInOrdenTapa(q.foco, q.foco.(color := ROJO), q.marcos);
  }

  // ---------------------------------------------------------------------
  // Deletion. The phantom vertex the source hangs under a childless vertex
  // before splicing it out is the empty slot itself here: it is not red,
  // like the phantom, and it is gone once the fix-up ends, as after the
  // phantom's own eliminaVertice.

  /** A vertex colored black (`hijo.color = NEGRO`); on the empty slot, which
      stands for the phantom, nothing changes. */
  function Negro(v: Vertice): (r: Vertice)
    ensures r.Nulo? == v.Nulo? && !EsRojo(r) && InOrden(r) == InOrden(v)
    ensures v.V? ==> r.color == NEGRO && r.izquierdo == v.izquierdo && r.derecho == v.derecho
  {
    if v.V? then v.(color := NEGRO) else v
  }

  /** The red child made black as the fix-up does (`if esRojo(..) .color = NEGRO`). */
  function SiRojoNegro(v: Vertice): (r: Vertice)
    ensures !EsRojo(r) && InOrden(r) == InOrden(v)
    ensures !EsRojo(v) ==> r == v
  {
    if EsRojo(v) then v.(color := NEGRO) else v
  }

  /** The deletion fix-up invariant at `vertice`: its subtree is valid and not
      red, but one black level short of what the ancestors expect. */
  predicate PendienteElimina(z: Posicion)
  {
    RN(z.foco) && !EsRojo(z.foco) && MarcosRN(z.marcos, AlturaNegra(z.foco) + 1, false)
  }

  /** Below a parent where a subtree is one black level short the sibling
      is a real vertex, so the fix-up may read its children. */
  lemma HermanoExiste(z: Posicion)
    requires PendienteElimina(z) && z.marcos != []
    ensures Hermano(z.marcos[0]).V?
  {
  }

  /** Case 1 of rebalanceoElimina, a red sibling: the parent becomes red,
      the sibling black, and the parent is rotated towards `vertice`, which
      keeps its place one level lower, under the same (now red) parent. */
  function HermanoRojo(z: Posicion): (r: Posicion)
    requires z.marcos != [] && Hermano(z.marcos[0]).V?
    ensures r.foco == z.foco && |r.marcos| == |z.marcos| + 1
    ensures r.marcos[0].color == ROJO && r.marcos[0].MarcoIzq? == z.marcos[0].MarcoIzq?
  {
    var m := z.marcos[0];
    var s := Hermano(m);
    var padre := Cambia(Sube(z), Pega(ConHermano(m, s.(color := NEGRO)).(color := ROJO), z.foco));
    if m.MarcoIzq? then BajaIzq(BajaIzq(GiraIzquierdaEn(padre)))
    else BajaDer(BajaDer(GiraDerechaEn(padre)))
  }

  /** Case 1 keeps the invariant, leaves a black sibling and does not change
      the in-order sequence. */
  lemma HermanoRojoCorrecto(z: Posicion)
    requires PendienteElimina(z) && z.marcos != [] && EsRojo(Hermano(z.marcos[0]))
    ensures PendienteElimina(HermanoRojo(z)) && !EsRojo(Hermano(HermanoRojo(z).marcos[0]))
    ensures InOrden(Arbol(HermanoRojo(z))) == InOrden(Arbol(z))
  {
    var ms := z.marcos;
    var m := ms[0];
    var s := Hermano(m);
    var n := AlturaNegra(z.foco);
    assert m.color == NEGRO;
    assert MarcosRN(ms[1..], n + 2, false);
    var r := HermanoRojo(z);
    var a: Marco;
    var b: Marco;
    if m.MarcoIzq? {
      a := MarcoIzq(m.elemento, s.izquierdo, m.altura, ROJO);
      b := MarcoIzq(s.elemento, s.derecho, s.altura, NEGRO);
    } else {
      a := MarcoDer(s.derecho, m.elemento, m.altura, ROJO);
      b := MarcoDer(s.izquierdo, s.elemento, s.altura, NEGRO);
    }
    assert r.marcos == [a, b] + ms[1..];
    assert r.marcos[1..] == [b] + ms[1..] && r.marcos[1..][1..] == ms[1..];
    assert MarcosRN([b] + ms[1..], n + 1, true);
    var padre := Pega(ConHermano(m, s.(color := NEGRO)).(color := ROJO), z.foco);
    ColorMismoInOrden(s, NEGRO);
    MismoInOrdenTapa(Pega(m, z.foco), padre, ms[1..]);
  }

  /** Case 2, a black parent, sibling and nephews: the sibling becomes red
      and the fix-up continues at the parent. */
  function SubeRecoloreando(z: Posicion): (r: Posicion)
    requires z.marcos != [] && Hermano(z.marcos[0]).V?
    ensures r.marcos == z.marcos[1..]
  {
    var m := z.marcos[0];
    Posicion(Pega(ConHermano(m, Hermano(m).(color := ROJO)), z.foco), z.marcos[1..])
  }

  /** Case 2 keeps the invariant one level up and the in-order sequence. */
  lemma SubeRecoloreandoCorrecto(z: Posicion)
    requires PendienteElimina(z) && z.marcos != [] && Hermano(z.marcos[0]).V?
    requires z.marcos[0].color != ROJO && !EsRojo(Hermano(z.marcos[0]))
    requires !EsRojo(Hermano(z.marcos[0]).izquierdo) && !EsRojo(Hermano(z.marcos[0]).derecho)
    ensures PendienteElimina(SubeRecoloreando(z))
    ensures InOrden(Arbol(SubeRecoloreando(z))) == InOrden(Arbol(z))
  {
    var ms := z.marcos;
    var m := ms[0];
    var s := Hermano(m);
    var n := AlturaNegra(z.foco);
    var roja := s.(color := ROJO);
    assert RN(roja) && AlturaNegra(roja) == n;
    var r := SubeRecoloreando(z).foco;
    assert RN(r) && AlturaNegra(r) == n + 1;
    ColorMismoInOrden(s, ROJO);
    MismoInOrdenTapa(Pega(m, z.foco), r, ms[1..]);
  }

  /** Case 3, a red parent over a black sibling and nephews: the sibling
      becomes red, the parent black, and the fix-up ends. The result is the
      parent's place. */
  function RecoloreaPadre(z: Posicion): (r: Posicion)
    requires z.marcos != [] && Hermano(z.marcos[0]).V?
    ensures r.marcos == z.marcos[1..]
  {
    var m := z.marcos[0];
    Posicion(Pega(ConHermano(m, Hermano(m).(color := ROJO)).(color := NEGRO), z.foco), z.marcos[1..])
  }

  /** Case 3 repairs the whole tree, in-order unchanged. */
  lemma RecoloreaPadreCorrecto(z: Posicion)
    requires PendienteElimina(z) && z.marcos != [] && Hermano(z.marcos[0]).V?
    requires z.marcos[0].color == ROJO && !EsRojo(Hermano(z.marcos[0]))
    requires !EsRojo(Hermano(z.marcos[0]).izquierdo) && !EsRojo(Hermano(z.marcos[0]).derecho)
    ensures ArbolRNValido(Arbol(RecoloreaPadre(z)))
    ensures InOrden(Arbol(RecoloreaPadre(z))) == InOrden(Arbol(z))
  {
    var ms := z.marcos;
    var m := ms[0];
    var s := Hermano(m);
    var n := AlturaNegra(z.foco);
    var roja := s.(color := ROJO);
    assert RN(roja) && AlturaNegra(roja) == n;
    var r := RecoloreaPadre(z).foco;
    assert RN(r) && AlturaNegra(r) == n + 1;
    MarcosRNNegro(ms[1..], n + 1);
    MarcosRNTapa(r, ms[1..]);
    ColorMismoInOrden(s, ROJO);
    MismoInOrdenTapa(Pega(m, z.foco), r, ms[1..]);
  }

  /** The condition of case 4: the nephew on `vertice`'s side is red and the
      other one is not. */
  predicate CasoSobrino(z: Posicion)
    requires z.marcos != [] && Hermano(z.marcos[0]).V?
  {
    var s := Hermano(z.marcos[0]);
    (EsIzquierdo(z) && EsRojo(s.izquierdo) && !EsRojo(s.derecho)) ||
    (!EsIzquierdo(z) && !EsRojo(s.izquierdo) && EsRojo(s.derecho))
  }

  /** Case 4: the sibling becomes red, its red child black, and the sibling
      is rotated away from `vertice`, whose handle stays where it was. */
  function GiraSobrino(z: Posicion): (r: Posicion)
    requires z.marcos != [] && Hermano(z.marcos[0]).V? && CasoSobrino(z)
    ensures r.foco == z.foco && |r.marcos| == |z.marcos| && r.marcos[1..] == z.marcos[1..]
    ensures r.marcos[0].MarcoIzq? == z.marcos[0].MarcoIzq? && r.marcos[0].color == z.marcos[0].color
  {
    var s := Hermano(z.marcos[0]);
    var h := Cambia(Otro(z), V(SiRojoNegro(s.izquierdo), s.elemento, SiRojoNegro(s.derecho), s.altura, ROJO));
    if EsIzquierdo(z) then Otro(GiraDerechaEn(h)) else Otro(GiraIzquierdaEn(h))
  }

  /** What case 5 needs: the invariant, a black sibling, and a red nephew on
      the side away from `vertice`. */
  predicate CasoCinco(z: Posicion)
  {
    PendienteElimina(z) && z.marcos != [] && Hermano(z.marcos[0]).V? && !EsRojo(Hermano(z.marcos[0])) &&
    (EsIzquierdo(z) ==> EsRojo(Hermano(z.marcos[0]).derecho)) &&
    (!EsIzquierdo(z) ==> EsRojo(Hermano(z.marcos[0]).izquierdo))
  }

  /** The sibling after case 4 when `vertice` is a left child: its red left
      child, made black, on top, and the sibling, red, on the right. */
  lemma SobrinoIzquierdo(s: Vertice, n: nat)
    requires RN(s) && s.V? && !EsRojo(s) && AlturaNegra(s) == n + 1
    requires EsRojo(s.izquierdo) && !EsRojo(s.derecho)
    ensures var c := s.izquierdo;
      var t := V(c.izquierdo, c.elemento, V(c.derecho, s.elemento, s.derecho, s.altura, ROJO), c.altura, NEGRO);
      RN(t) && AlturaNegra(t) == n + 1 && EsRojo(t.derecho)
  {
    var c := s.izquierdo;
    assert s.color == NEGRO && AlturaNegra(c) == n;
    assert AlturaNegra(c.izquierdo) == n && AlturaNegra(c.derecho) == n && AlturaNegra(s.derecho) == n;
    var medio := V(c.derecho, s.elemento, s.derecho, s.altura, ROJO);
    assert RN(medio) && AlturaNegra(medio) == n;
  }

  /** The mirror image of `SobrinoIzquierdo`, for a right child. */
  lemma SobrinoDerecho(s: Vertice, n: nat)
    requires RN(s) && s.V? && !EsRojo(s) && AlturaNegra(s) == n + 1
    requires !EsRojo(s.izquierdo) && EsRojo(s.derecho)
    ensures var c := s.derecho;
      var t := V(V(s.izquierdo, s.elemento, c.izquierdo, s.altura, ROJO), c.elemento, c.derecho, c.altura, NEGRO);
      RN(t) && AlturaNegra(t) == n + 1 && EsRojo(t.izquierdo)
  {
    var c := s.derecho;
    assert s.color == NEGRO && AlturaNegra(s.izquierdo) == n && AlturaNegra(c) == n;
    assert AlturaNegra(c.izquierdo) == n && AlturaNegra(c.derecho) == n;
    var medio := V(s.izquierdo, s.elemento, c.izquierdo, s.altura, ROJO);
    assert RN(medio) && AlturaNegra(medio) == n;
  }

  /** Case 4 prepares case 5, in-order unchanged. */
  lemma GiraSobrinoCorrecto(z: Posicion)
    requires PendienteElimina(z) && z.marcos != [] && Hermano(z.marcos[0]).V?
    requires !EsRojo(Hermano(z.marcos[0])) && CasoSobrino(z)
    ensures CasoCinco(GiraSobrino(z))
    ensures InOrden(Arbol(GiraSobrino(z))) == InOrden(Arbol(z))
  {
    var ms := z.marcos;
    var m := ms[0];
    var s := Hermano(m);
    var n := AlturaNegra(z.foco);
    assert AlturaNegra(s) == n + 1;
    var r := GiraSobrino(z);
    var t := Hermano(r.marcos[0]);
    if EsIzquierdo(z) {
      SobrinoIzquierdo(s, n);
      var c := s.izquierdo;
      assert t == V(c.izquierdo, c.elemento, V(c.derecho, s.elemento, s.derecho, s.altura, ROJO), c.altura, NEGRO);
    } else {
      SobrinoDerecho(s, n);
      var c := s.derecho;
      assert t == V(V(s.izquierdo, s.elemento, c.izquierdo, s.altura, ROJO), c.elemento, c.derecho, c.altura, NEGRO);
    }
    assert r.marcos == [r.marcos[0]] + ms[1..] && ms == [m] + ms[1..];
    assert MarcosRN(r.marcos, n + 1, false);
    var h := Otro(z);
    var recoloreado := V(SiRojoNegro(s.izquierdo), s.elemento, SiRojoNegro(s.derecho), s.altura, ROJO);
    MismoInOrdenTapa(h.foco, recoloreado, h.marcos);
  }

  /** Without case 4 a red nephew is already away from `vertice`. */
  lemma SinGiroSobrino(z: Posicion)
    requires PendienteElimina(z) && z.marcos != [] && Hermano(z.marcos[0]).V?
    requires !EsRojo(Hermano(z.marcos[0])) && !CasoSobrino(z)
    requires EsRojo(Hermano(z.marcos[0]).izquierdo) || EsRojo(Hermano(z.marcos[0]).derecho)
    ensures CasoCinco(z)
  {
  }

  /** Case 5: the sibling takes the parent's color, the parent and the far
      nephew become black, and the parent is rotated towards `vertice`. The
      result is the parent's place, and the fix-up ends. */
  function GiraPadre(z: Posicion): (r: Posicion)
    requires CasoCinco(z)
    ensures r.marcos == z.marcos[1..]
  {
    var m := z.marcos[0];
    var s := Hermano(m);
    if EsIzquierdo(z) then
      var s2 := V(s.izquierdo, s.elemento, Negro(s.derecho), s.altura, m.color);
      GiraIzquierdaEn(Cambia(Sube(z), V(z.foco, m.elemento, s2, m.altura, NEGRO)))
    else
      var s2 := V(Negro(s.izquierdo), s.elemento, s.derecho, s.altura, m.color);
      GiraDerechaEn(Cambia(Sube(z), V(s2, m.elemento, z.foco, m.altura, NEGRO)))
  }

  /** The subtree case 5 leaves when `vertice` is a left child: valid, not
      red unless the parent was, and as many black levels as the ancestors
      expect of the parent. */
  lemma CincoIzquierdo(f: Vertice, x: int, a: int, c: Color, s: Vertice, n: nat)
    requires RN(f) && !EsRojo(f) && AlturaNegra(f) == n && ColorValido(c)
    requires RN(s) && s.V? && !EsRojo(s) && AlturaNegra(s) == n + 1 && EsRojo(s.derecho)
    ensures var r := V(V(f, x, s.izquierdo, a, NEGRO), s.elemento, Negro(s.derecho), s.altura, c);
      RN(r) && AlturaNegra(r) == n + 1 + (if c == NEGRO then 1 else 0) && (c != ROJO ==> !EsRojo(r))
  {
    assert s.color == NEGRO && AlturaNegra(s.izquierdo) == n && AlturaNegra(s.derecho) == n;
    var abajo := V(f, x, s.izquierdo, a, NEGRO);
    assert RN(abajo) && AlturaNegra(abajo) == n + 1;
    var lejos := Negro(s.derecho);
    assert RN(lejos) && AlturaNegra(lejos) == n + 1;
  }

  /** The mirror image of `CincoIzquierdo`, for a right child. */
  lemma CincoDerecho(f: Vertice, x: int, a: int, c: Color, s: Vertice, n: nat)
    requires RN(f) && !EsRojo(f) && AlturaNegra(f) == n && ColorValido(c)
    requires RN(s) && s.V? && !EsRojo(s) && AlturaNegra(s) == n + 1 && EsRojo(s.izquierdo)
    ensures var r := V(Negro(s.izquierdo), s.elemento, V(s.derecho, x, f, a, NEGRO), s.altura, c);
      RN(r) && AlturaNegra(r) == n + 1 + (if c == NEGRO then 1 else 0) && (c != ROJO ==> !EsRojo(r))
  {
    assert s.color == NEGRO && AlturaNegra(s.izquierdo) == n && AlturaNegra(s.derecho) == n;
    var abajo := V(s.derecho, x, f, a, NEGRO);
    assert RN(abajo) && AlturaNegra(abajo) == n + 1;
    var lejos := Negro(s.izquierdo);
    assert RN(lejos) && AlturaNegra(lejos) == n + 1;
  }

  /** Case 5 repairs the whole tree, in-order unchanged. */
  lemma GiraPadreCorrecto(z: Posicion)
    requires CasoCinco(z)
    ensures ArbolRNValido(Arbol(GiraPadre(z)))
    ensures InOrden(Arbol(GiraPadre(z))) == InOrden(Arbol(z))
  {
    var ms := z.marcos;
    var m := ms[0];
    var s := Hermano(m);
    var n := AlturaNegra(z.foco);
    assert AlturaNegra(s) == n + 1;
    var r := GiraPadre(z).foco;
    if EsIzquierdo(z) {
      CincoIzquierdo(z.foco, m.elemento, m.altura, m.color, s, n);
      assert r == V(V(z.foco, m.elemento, s.izquierdo, m.altura, NEGRO), s.elemento, Negro(s.derecho), s.altura, m.color);
    } else {
      CincoDerecho(z.foco, m.elemento, m.altura, m.color, s, n);
      assert r == V(Negro(s.izquierdo), s.elemento, V(s.derecho, m.elemento, z.foco, m.altura, NEGRO), s.altura, m.color);
    }
    MarcosRNTapa(r, ms[1..]);
    MismoInOrdenTapa(Pega(m, z.foco), r, ms[1..]);
  }

  /** The vertex elimina splices out: the one busca found, or, when it has two
      children, the predecessor intercambiaEliminable swaps in. */
  function Eliminable(p: Posicion): (w: Posicion)
    requires p.foco.V?
    ensures w.foco.V? && (w.foco.izquierdo.Nulo? || w.foco.derecho.Nulo?)
    ensures EliminaVertice(w) == EliminaEn(p)
  {
    if p.foco.izquierdo.V? && p.foco.derecho.V? then IntercambiaEliminable(p) else p
  }

  /** Swapping in the predecessor overwrites one element and no color, so
      the tree stays valid. */
  lemma EliminableRN(p: Posicion)
    requires p.foco.V? && ArbolRNValido(Arbol(p))
    ensures ArbolRNValido(Arbol(Eliminable(p)))
  {
    if p.foco.izquierdo.V? && p.foco.derecho.V? {
      var q := BajaIzq(p);
      var m := MaximoSubArbol(q);
      DebajoMismoArbol(m, q);
      MarcosRNTapa(m.foco, m.marcos);
      var k := |m.marcos| - |p.marcos| - 1;
      var nuevo := MarcoIzq(m.foco.elemento, p.foco.derecho, p.foco.altura, p.foco.color);
      assert m.marcos[k..] == q.marcos;
      assert m.marcos[k] == q.marcos[0];
      MarcosRNCambia(m.marcos, k, nuevo, AlturaNegra(m.foco), EsRojo(m.foco));
      var w := IntercambiaEliminable(p);
      assert w == Posicion(m.foco, m.marcos[k := nuevo]);
      MarcosRNTapa(w.foco, w.marcos);
    }
  }

  /** The phantom is needed exactly when the spliced vertex has no child:
      then the child left in its place is the empty slot. */
  lemma FantasmaSiSinHijos(w: Posicion)
    requires w.foco.V? && (w.foco.izquierdo.Nulo? || w.foco.derecho.Nulo?)
    ensures EliminaVertice(w).foco.Nulo? <==> w.foco.izquierdo.Nulo? && w.foco.derecho.Nulo?
    ensures EliminaVertice(w).foco.V? ==> EliminaVertice(w).foco == (if w.foco.izquierdo.V? then w.foco.izquierdo else w.foco.derecho)
  {
  }

  /** Splicing a vertex out of a valid tree: when the child moved into its
      place or the vertex itself is red, making the child black repairs the
      tree; otherwise the child (or the phantom's slot) is where the fix-up
      starts, one black level short. */
  lemma EliminaRN(w: Posicion)
    requires w.foco.V? && (w.foco.izquierdo.Nulo? || w.foco.derecho.Nulo?) && ArbolRNValido(Arbol(w))
    ensures var u := EliminaVertice(w);
      (EsRojo(u.foco) || w.foco.color == ROJO) ==> ArbolRNValido(Arbol(Cambia(u, Negro(u.foco))))
    ensures var u := EliminaVertice(w);
      !(EsRojo(u.foco) || w.foco.color == ROJO) ==> PendienteElimina(u)
    ensures var u := EliminaVertice(w);
      InOrden(Arbol(Cambia(u, Negro(u.foco)))) == InOrden(Arbol(u))
  {
    var u := EliminaVertice(w);
    var v := w.foco;
    MarcosRNTapa(v, w.marcos);
    assert AlturaNegra(u.foco) == AlturaNegra(v.izquierdo);
    if EsRojo(u.foco) {
      assert v.color == NEGRO && AlturaNegra(Negro(u.foco)) == AlturaNegra(v);
      MarcosRNTapa(Negro(u.foco), u.marcos);
    } else if v.color == ROJO {
      assert Negro(u.foco) == u.foco;
      MarcosRNNegro(w.marcos, AlturaNegra(v));
      MarcosRNTapa(u.foco, u.marcos);
    }
    MismoInOrdenTapa(u.foco, Negro(u.foco), u.marcos);
  }

  /** Subtrees of the same shape give trees of the same shape. */
  lemma {:induction false} FormaTapa(a: Vertice, b: Vertice, ms: seq<Marco>)
    requires Forma(a) == Forma(b)
    ensures Forma(Tapa(a, ms)) == Forma(Tapa(b, ms))
    decreases |ms|
  {
    if ms != [] {
      FormaTapa(Pega(ms[0], a), Pega(ms[0], b), ms[1..]);
    }
  }

  /** The red-uncle case only recolors: the tree keeps its shape and
      elements (vertex equality ignores colors), so nothing was rotated. */
  lemma RecoloreaTioSinGiro(z: Posicion)
    requires |z.marcos| >= 2
    ensures Iguales(Arbol(RecoloreaTio(z)), Arbol(z))
  {
    var ms := z.marcos;
    assert ms[1..][1..] == ms[2..] && ms[1..][0] == ms[1];
    var g := Pega(ms[1], Pega(ms[0], z.foco));
    assert Arbol(z) == Tapa(Pega(ms[0], z.foco), ms[1..]);
    assert Arbol(z) == Tapa(g, ms[2..]);
    var t := Hermano(ms[1]);
    assert Forma(Negro(t)) == Forma(t);
    assert Forma(RecoloreaTio(z).foco) == Forma(g);
    FormaTapa(RecoloreaTio(z).foco, g, ms[2..]);
    IgualesSiMismaForma(Arbol(RecoloreaTio(z)), Arbol(z));
  }

  /** What an insertion into a valid sorted tree hands to the fix-up: the new
      leaf, colored red, satisfies the insertion invariant, and the tree is
      the ordered insertion's: sorted, one vertex and one copy more. */
  lemma AgregaRojinegro(t: Vertice, x: int)
    requires ArbolRNValido(t) && Ordenada(InOrden(t))
    ensures var q := Inserta(t, x);
      var v := Cambia(q, q.foco.(color := ROJO));
      PendienteAgrega(v) && InOrden(Arbol(v)) == InOrden(Arbol(q)) &&
      Ordenada(InOrden(Arbol(v))) && Tamano(Arbol(v)) == Tamano(t) + 1 &&
      multiset(InOrden(Arbol(v))) == multiset(InOrden(t)) + multiset{x}
  {
    var q := Inserta(t, x);
    HojaRoja(t, x);
    InsertaPartes(t, x);
    InsertaOrdenado(t, x);
    MismoInOrdenMismoTamano(Arbol(q), Arbol(Cambia(q, q.foco.(color := ROJO))));
  }

  /** A valid tree that is not empty has a black root. */
  lemma RaizEsNegra(t: Vertice)
    requires ArbolRNValido(t) && t.V?
    ensures t.color == NEGRO
  {
  }

  // ---------------------------------------------------------------------
  // The tree object.

  /** ArbolRojinegro with the fields it inherits. */
  class ArbolRojinegro {
    var raiz: Vertice
    var elementos: int

    /** The counter is right, the tree is sorted and the five rules hold. */
    predicate Valid()
      reads this
    {
      elementos == Tamano(raiz) && Ordenada(InOrden(raiz)) && ArbolRNValido(raiz)
    }

    /** The empty tree. */
    constructor()
      ensures Valid() && raiz == Nulo && elementos == 0
    {
      raiz := Nulo;
      elementos := 0;
    }

    /** rebalanceoAgrega, its tail call made a loop: a vertex without parent
        is colored black; a black parent ends the fix-up; a red uncle makes
        parent and uncle black and the grandparent red, and the fix-up goes
        on at the grandparent; otherwise the rotations of `GiraAgrega` end
        it. The tree ends valid with its in-order sequence unchanged. */
    method RebalanceoAgrega(v: Posicion)
      requires raiz == Arbol(v) && PendienteAgrega(v)
      modifies this
      ensures ArbolRNValido(raiz) && InOrden(raiz) == old(InOrden(raiz)) && elementos == old(elementos)
    {
      var z := v;
      ghost var recorrido := InOrden(raiz);
      while true
        invariant PendienteAgrega(z) && raiz == Arbol(z) && InOrden(raiz) == recorrido
        invariant elementos == old(elementos)
        decreases |z.marcos|
      {
        if z.marcos == [] {
          RaizNegra(z);
          raiz := z.foco.(color := NEGRO);
          return;
        }
        if z.marcos[0].color != ROJO {
          PadreNegroTermina(z);
          return;
        }
        var tio := GetTio(Some(z));
        if tio.Some? && EsRojo(tio.value.foco) {
          RecoloreaTioCorrecto(z);
          z := RecoloreaTio(z);
          raiz := Arbol(z);
        } else {
          GiraAgregaArbol(z);
          raiz := Tapa(GiraAgrega(z.foco, z.marcos[0], z.marcos[1]), z.marcos[2..]);
          return;
        }
      }
    }

    /** agrega: a null element is rejected with IllegalArgumentException and
        nothing changes. Otherwise the element is inserted as in the ordered
        tree, the new vertex is colored red and the fix-up starts there. The
        tree ends valid with a black root, one element more, and the
        in-order sequence the ordered insertion gives. */
    method Agrega(e: Option<int>) returns (r: Resultado<()>)
      requires Valid()
      modifies this
      ensures Valid()
      ensures e.None? ==> r == Falla(ArgumentoInvalido) && raiz == old(raiz) && elementos == old(elementos)
      ensures e.Some? ==> r == Exito(()) && elementos == old(elementos) + 1 &&
                            InOrden(raiz) == InOrden(Arbol(Inserta(old(raiz), e.value)))
      ensures e.Some? ==> multiset(InOrden(raiz)) == multiset(InOrden(old(raiz))) + multiset{e.value}
      ensures e.Some? ==> raiz.V? && raiz.color == NEGRO
    {
      if e.None? {
        return Falla(ArgumentoInvalido);
      }
      var x := e.value;
      AgregaRojinegro(raiz, x);
      var hoja := Inserta(raiz, x);
      var v := Cambia(hoja, hoja.foco.(color := ROJO));
      elementos := elementos + 1;
      raiz := Arbol(v);
      ghost var insertado := raiz;
      RebalanceoAgrega(v);
      MismoInOrdenMismoTamano(insertado, raiz);
      RaizEsNegra(raiz);
      return Exito(());
    }

    /** rebalanceoElimina, its tail call made a loop: at the root it ends;
        a red sibling is handled by case 1 first; then case 2 goes on at the
        parent, case 3 ends, and cases 4 and 5 rotate and end. The tree ends
        valid with its in-order sequence unchanged. */
    method RebalanceoElimina(vertice: Posicion)
      requires raiz == Arbol(vertice) && PendienteElimina(vertice)
      modifies this
      ensures ArbolRNValido(raiz) && InOrden(raiz) == old(InOrden(raiz)) && elementos == old(elementos)
    {
      var z := vertice;
      ghost var recorrido := InOrden(raiz);
      while true
        invariant PendienteElimina(z) && raiz == Arbol(z) && InOrden(raiz) == recorrido
        invariant elementos == old(elementos)
        decreases |z.marcos|
      {
        if z.marcos == [] {
          return;
        }
        HermanoExiste(z);
        if EsRojo(Hermano(z.marcos[0])) {
          HermanoRojoCorrecto(z);
          z := HermanoRojo(z);
          raiz := Arbol(z);
          HermanoExiste(z);
        }
        var padre := z.marcos[0];
        var hermano := Hermano(padre);
        if padre.color != ROJO && !EsRojo(hermano) && !EsRojo(hermano.derecho) && !EsRojo(hermano.izquierdo) {
          SubeRecoloreandoCorrecto(z);
          z := SubeRecoloreando(z);
          raiz := Arbol(z);
        } else {
          TerminaElimina(z);
          return;
        }
      }
    }

    /** Cases 3 to 5 of rebalanceoElimina, after case 1 has left a black
        sibling and case 2 did not apply: a red parent over black nephews
        is case 3; otherwise case 4 when the red nephew is on `vertice`'s
        side, then case 5. Each ends the fix-up with the tree valid. */
    method TerminaElimina(z: Posicion)
      requires raiz == Arbol(z) && PendienteElimina(z) && z.marcos != [] && Hermano(z.marcos[0]).V?
      requires !EsRojo(Hermano(z.marcos[0]))
      requires z.marcos[0].color == ROJO || EsRojo(Hermano(z.marcos[0]).derecho) || EsRojo(Hermano(z.marcos[0]).izquierdo)
      modifies this
      ensures ArbolRNValido(raiz) && InOrden(raiz) == old(InOrden(raiz)) && elementos == old(elementos)
    {
      var padre := z.marcos[0];
      var hermano := Hermano(padre);
      if padre.color == ROJO && !EsRojo(hermano) && !EsRojo(hermano.derecho) && !EsRojo(hermano.izquierdo) {
        RecoloreaPadreCorrecto(z);
        raiz := Arbol(RecoloreaPadre(z));
        return;
      }
      var y := z;
      if CasoSobrino(z) {
        GiraSobrinoCorrecto(z);
        y := GiraSobrino(z);
        raiz := Arbol(y);
      } else {
        SinGiroSobrino(z);
      }
      GiraPadreCorrecto(y);
      raiz := Arbol(GiraPadre(y));
    }

    /** elimina: an element busca does not find changes nothing. Otherwise
        the counter drops by one and `EliminaEnRojinegro` splices and
        repairs. The tree ends valid, with the in-order sequence the ordered deletion
        gives. */
    method Elimina(x: int)
      requires Valid()
      modifies this
      ensures Valid()
      ensures x !in InOrden(old(raiz)) ==> raiz == old(raiz) && elementos == old(elementos)
      ensures x in InOrden(old(raiz)) ==>
                BuscaOrdenado(old(raiz), x).Some? &&
                InOrden(raiz) == InOrden(Arbol(EliminaEn(BuscaOrdenado(old(raiz), x).value))) &&
                elementos == old(elementos) - 1 &&
                multiset(InOrden(raiz)) == multiset(InOrden(old(raiz))) - multiset{x}
    {
      var vertice := BuscaOrdenado(raiz, x);
      if vertice.None? {
        return;
      }
      EliminaDeArbol(raiz, x);
      elementos := elementos - 1;
      ghost var eliminado := Arbol(EliminaEn(vertice.value));
      EliminaEnRojinegro(vertice.value);
      MismoInOrdenMismoTamano(eliminado, raiz);
    }

    /** The splice and repair of elimina once busca found the vertex: a red
        child or a red spliced vertex means the child is made black and
        nothing more; otherwise the fix-up starts at the child (at the
        phantom's slot for a childless vertex). */
    method EliminaEnRojinegro(p: Posicion)
      requires p.foco.V? && raiz == Arbol(p) && ArbolRNValido(raiz)
      modifies this
      ensures ArbolRNValido(raiz) && InOrden(raiz) == InOrden(Arbol(EliminaEn(p))) && elementos == old(elementos)
    {
      EliminableRN(p);
      var aEliminar := Eliminable(p);
      EliminaRN(aEliminar);
      var hijo := EliminaVertice(aEliminar);
      if EsRojo(hijo.foco) || aEliminar.foco.color == ROJO {
        raiz := Arbol(Cambia(hijo, Negro(hijo.foco)));
      } else {
        raiz := Arbol(hijo);
        RebalanceoElimina(hijo);
      }
    }

    /** giraDerecha: users may not rotate a red-black tree; the call always
        fails with UnsupportedOperationException and changes nothing. */
    method GiraDerecha(vertice: Option<Posicion>) returns (r: Resultado<()>)
      ensures r == Falla(OperacionNoSoportada)
    {
      return Falla(OperacionNoSoportada);
    }

    /** giraIzquierda: like `GiraDerecha`, always UnsupportedOperationException. */
    method GiraIzquierda(vertice: Option<Posicion>) returns (r: Resultado<()>)
      ensures r == Falla(OperacionNoSoportada)
    {
      return Falla(OperacionNoSoportada);
    }
  }
}
