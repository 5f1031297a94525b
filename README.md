# EDD-Practica_9 in Dafny

A Dafny model of the data-structures library in `mx.unam.ciencias.edd`, with proofs about it:

- binary trees with parent back-references (`ArbolBinario`);
- ordered binary search trees (`ArbolBinarioOrdenado`);
- AVL trees (`ArbolAVL`);
- red-black trees (`ArbolRojinegro`);
- complete binary trees (`ArbolBinarioCompleto`);
- the array algorithms in `Arreglos`: quicksort, selection sort and binary search.

Keys are mathematical integers with their natural order. They stand in for `Comparable` and `Comparator`.

## How the library is represented

- **Vertices.** `Vertices.Vertice` is a value: `Nulo` or `V(izquierdo, elemento, derecho, altura, color)`.
  - `altura` is the height cached by AVL vertices.
  - `color` is the colour of red-black vertices: ROJO, NEGRO or NINGUNO.
  - A new vertex has height 0 and colour NINGUNO, as the Java constructors leave them.
- **Vertex handles.** A handle is a zipper `Posiciones.Posicion(foco, marcos)`: the subtree at the vertex, plus the path of frames back to the root.
  - `marcos[0]` is the parent, `marcos[1]` the grandparent, and so on.
  - `padre`, `izquierdo` and `derecho` become `Sube`, `BajaIzq` and `BajaDer`.
  - `Arbol(p)` rebuilds the whole tree.
  - A parent link therefore always agrees with the child link that leads to it.
- **Pointer surgery.** Splicing out a vertex, rotating, or swapping in the predecessor replaces the focus of a zipper.
- **Upward walks.** `rebalanceaArbolAVL`, `rebalanceoAgrega` and `rebalanceoElimina` are `while` loops that climb a zipper. The Java methods are tail-recursive.
- **Tree objects.** Each tree is a Dafny `class` whose fields the methods update: `raiz`, `elementos`, and `ultimoAgregado` for the ordered tree.
- **The complete tree** keeps its level-order sequence `niveles`.
  - The children of index `i` are at `2i+1` and `2i+2`.
  - `Completo.ArbolDe` rebuilds the linked tree from that sequence.
  - Its breadth-first loops run over a queue of indices.
- **Arrays.** `Arreglos` works in place on `array<int>`.

### What is proved

- **Order.** The in-order sequence of a search tree is sorted (`Ordenado.EsABBSiOrdenada`). Insertion keeps it sorted with one more copy of the key. Deletion keeps it sorted with one copy fewer.
- **AVL.** Every vertex is balanced and its cached height is its real height (`AVL.EsAVL`). This holds after every insertion and deletion, by an invariant on the rebalancing loop.
- **Red-black.** After every insertion and deletion:
  - a red vertex has black children;
  - every path from a vertex down to an empty subtree meets the same number of black vertices;
  - the root is black.
  Both fix-up loops keep an explicit "pending" invariant.
- **Complete tree.** Insertion appends to the level order and deletion swaps in the last element. `altura` equals the height of the rebuilt linked tree, and `log2` is proved correct.
- **Arrays.** Both sorts yield a sorted permutation. Quicksort's recursion changes only its own segment. Binary search finds the key exactly when it is present in a sorted array.

## Model

| member | source | states |
|---|---|---|
| Vertices.NuevoVertice | src/main/java/mx/unam/ciencias/edd/ArbolBinario.java:217-219 | a new vertex holds the element and has no children |
| Vertices.Max | src/main/java/mx/unam/ciencias/edd/ArbolBinario.java:406-408 | the result is one of the two arguments and at least both |
| Vertices.AlturaAcotada | src/main/java/mx/unam/ciencias/edd/ArbolBinario.java:110-113 | vertex height lies between -1 and size-1, and is -1 exactly for the empty subtree |
| Vertices.RecorridosPermutan | src/main/java/mx/unam/ciencias/edd/ArbolBinarioOrdenado.java:372-422 | pre-, in- and post-order all list every element of the tree exactly once |
| Vertices.InOrdenPermuta | src/main/java/mx/unam/ciencias/edd/ArbolBinarioOrdenado.java:394-400 | in-order lists the tree's multiset of elements, one entry per vertex |
| Vertices.IgualesSiMismaForma | src/main/java/mx/unam/ciencias/edd/ArbolBinario.java:167-176 | recursive vertex equality holds exactly when the two trees have the same shape and the same elements (heights and colours ignored) |
| Vertices.IgualesEsEquivalencia | src/main/java/mx/unam/ciencias/edd/ArbolBinario.java:152-176 | vertex equality is reflexive, symmetric and transitive |
| Vertices.IgualesMismoInOrden | src/main/java/mx/unam/ciencias/edd/ArbolBinario.java:167-176 | equal vertices have the same in-order sequence, size and height |
| Posiciones.PadreDe | src/main/java/mx/unam/ciencias/edd/ArbolBinario.java:67-72 | `padre()` fails with NoHayElemento exactly when there is no parent; otherwise it returns the parent, which has this vertex as the child on the recorded side |
| Posiciones.IzquierdoDe | src/main/java/mx/unam/ciencias/edd/ArbolBinario.java:79-83 | `izquierdo()` fails exactly when `hayIzquierdo` is false; otherwise it returns the left child, whose parent is this vertex |
| Posiciones.DerechoDe | src/main/java/mx/unam/ciencias/edd/ArbolBinario.java:90-94 | `derecho()` fails exactly when `hayDerecho` is false; otherwise it returns the right child, whose parent is this vertex |
| Posiciones.ProfundidadEsNumeroDeAncestros | src/main/java/mx/unam/ciencias/edd/ArbolBinario.java:130-132 | the depth (0 at the root, 1 + the parent's depth) is the number of ancestors |
| ArbolBinario.Busca | src/main/java/mx/unam/ciencias/edd/ArbolBinario.java:255-273 | the BFS loop returns nothing for an empty tree or an absent element, and otherwise the first vertex in level order holding the element |
| ArbolBinario.BuscaEncuentra | src/main/java/mx/unam/ciencias/edd/ArbolBinario.java:255-273 | the level-order search finds a vertex exactly when the element is in the tree, and the vertex holds it and belongs to the tree |
| ArbolBinario.NivelesColaPermuta | src/main/java/mx/unam/ciencias/edd/ArbolBinario.java:259-271 | the breadth-first traversal from a queue visits exactly the elements of the queued subtrees |
| ArbolBinario.Contiene | src/main/java/mx/unam/ciencias/edd/ArbolBinario.java:244-246 | `contiene` is true exactly when the element is present (and not null) |
| ArbolBinario.AlturaArbol | src/main/java/mx/unam/ciencias/edd/ArbolBinario.java:226-228 | tree height is -1 exactly for the empty tree; otherwise it is the greatest depth of a vertex: no vertex is deeper and some vertex is that deep |
| ArbolBinario.MasProfundo | src/main/java/mx/unam/ciencias/edd/ArbolBinario.java:110-113 | following a higher child down reaches a vertex of the same tree whose depth is the start depth plus the start vertex's height |
| ArbolBinario.RaizDe | src/main/java/mx/unam/ciencias/edd/ArbolBinario.java:280-284 | `raiz()` fails with NoHayElemento exactly on the empty tree; otherwise it returns a parentless handle on the root |
| ArbolBinario.ArbolesIguales | src/main/java/mx/unam/ciencias/edd/ArbolBinario.java:309-320 | two trees are equal exactly when their roots have the same shape and elements (which forces the same count) |
| Arreglos.Intercambia | src/main/java/mx/unam/ciencias/edd/Arreglos.java:159-163 | positions a and b are exchanged and nothing else changes |
| Arreglos.Particion | src/main/java/mx/unam/ciencias/edd/Arreglos.java:45-64 | the partition loop puts the pivot at i with nothing larger before it and nothing smaller-or-equal after it, permuting only a[lo..hi] |
| Arreglos.PasoIntercambio | src/main/java/mx/unam/ciencias/edd/Arreglos.java:49-53 | the swap step of the partition loop keeps the two scanned regions on their sides of the pivot |
| Arreglos.PivoteEnSuLugar | src/main/java/mx/unam/ciencias/edd/Arreglos.java:61-64 | the final swap leaves the segment partitioned around the pivot and a permutation of the original segment |
| Arreglos.QuickSortAuxiliar | src/main/java/mx/unam/ciencias/edd/Arreglos.java:41-68 | a[a..b] ends sorted and is a permutation of what it held; everything outside it is unchanged (for b <= a nothing moves) |
| Arreglos.OrdenadoJunta | src/main/java/mx/unam/ciencias/edd/Arreglos.java:65-66 | two sorted halves around a partition point form a sorted segment |
| Arreglos.QuickSort | src/main/java/mx/unam/ciencias/edd/Arreglos.java:19-32 | the array ends sorted and is a permutation of the input |
| Arreglos.SelectionSort | src/main/java/mx/unam/ciencias/edd/Arreglos.java:76-96 | the array ends sorted and is a permutation of the input |
| Arreglos.SeleccionAvanza | src/main/java/mx/unam/ciencias/edd/Arreglos.java:78-85 | swapping the minimum of the rest into position i extends the sorted prefix of smallest elements by one and permutes the array |
| Arreglos.BusquedaBinariaAuxiliar | src/main/java/mx/unam/ciencias/edd/Arreglos.java:121-138 | the result is -1 or an index in [a, b] holding the element; on a sorted segment holding the element it is not -1 |
| Arreglos.BusquedaBinaria | src/main/java/mx/unam/ciencias/edd/Arreglos.java:107-110 | the result lies in [-1, length), is -1 on an empty array, and on a sorted array is -1 exactly when the element is absent |
| Ordenado.EsABBSiOrdenada | src/main/java/mx/unam/ciencias/edd/ArbolBinarioOrdenado.java:10-15 | the ordering invariant (left subtree <= vertex <= right subtree) holds exactly when the in-order sequence is sorted |
| Ordenado.InsertaEn | src/main/java/mx/unam/ciencias/edd/ArbolBinarioOrdenado.java:105-126 | the recursive descent hangs a new leaf in an empty slot below the start vertex and leaves the rest of the tree as it was |
| Ordenado.InsertaOrdenado | src/main/java/mx/unam/ciencias/edd/ArbolBinarioOrdenado.java:105-126 | on a sorted tree the new leaf is placed after every smaller key and before every key at least as large (ties go left), so the in-order sequence stays sorted |
| Ordenado.Inserta | src/main/java/mx/unam/ciencias/edd/ArbolBinarioOrdenado.java:86-98 | insertion adds a leaf holding the element in an empty slot of the old tree; on an empty tree the leaf is the root |
| Ordenado.InsertaPartes | src/main/java/mx/unam/ciencias/edd/ArbolBinarioOrdenado.java:86-98 | the new in-order sequence is the old one with the element inserted at one point, so it holds one more copy and the size grows by one |
| Ordenado.BuscaEn | src/main/java/mx/unam/ciencias/edd/ArbolBinarioOrdenado.java:250-261 | a vertex found by the descent holds the element and lies in the searched subtree |
| Ordenado.BuscaEnCompleta | src/main/java/mx/unam/ciencias/edd/ArbolBinarioOrdenado.java:250-261 | on a sorted subtree the descent finds a vertex exactly when the element occurs in it |
| Ordenado.BuscaOrdenado | src/main/java/mx/unam/ciencias/edd/ArbolBinarioOrdenado.java:246-248 | `busca` returns a vertex of the tree holding the element; on a sorted tree it returns one exactly when the element is present |
| Ordenado.MaximoSubArbol | src/main/java/mx/unam/ciencias/edd/ArbolBinarioOrdenado.java:159-163 | the rightmost vertex of the subtree has no right child and comes last in its in-order sequence |
| Ordenado.MaximoEsMaximo | src/main/java/mx/unam/ciencias/edd/ArbolBinarioOrdenado.java:159-163 | on a sorted subtree that vertex holds the maximum |
| Ordenado.IntercambiaEliminable | src/main/java/mx/unam/ciencias/edd/ArbolBinarioOrdenado.java:174-178 | the returned vertex has no right child, is the in-order predecessor, and its element has been copied into the vertex with two children |
| Ordenado.EliminaVertice | src/main/java/mx/unam/ciencias/edd/ArbolBinarioOrdenado.java:186-237 | splicing out a vertex with at most one child removes exactly its entry from the in-order sequence |
| Ordenado.EliminaEn | src/main/java/mx/unam/ciencias/edd/ArbolBinarioOrdenado.java:134-149 | deleting at a vertex (predecessor swap when it has two children, then splice) removes exactly that vertex's entry from the in-order sequence |
| Ordenado.EliminaEnOrdenado | src/main/java/mx/unam/ciencias/edd/ArbolBinarioOrdenado.java:134-149 | on a sorted tree deletion keeps the in-order sequence sorted and removes exactly one copy of the element |
| Ordenado.EliminaDeArbol | src/main/java/mx/unam/ciencias/edd/ArbolBinarioOrdenado.java:134-149 | deleting a present element finds it, keeps the tree sorted, shrinks it by one and removes one copy |
| Ordenado.GiraDerechaEn | src/main/java/mx/unam/ciencias/edd/ArbolBinarioOrdenado.java:283-316 | the left child becomes the subtree root with the old root as its right child; the in-order sequence of the subtree and of the tree is unchanged |
| Ordenado.GiraIzquierdaEn | src/main/java/mx/unam/ciencias/edd/ArbolBinarioOrdenado.java:323-356 | the right child becomes the subtree root with the old root as its left child; the in-order sequence is unchanged |
| Ordenado.GirosInversos | src/main/java/mx/unam/ciencias/edd/ArbolBinarioOrdenado.java:283-356 | a left rotation undoes a right rotation and vice versa |
| Ordenado.DfsPreOrden | src/main/java/mx/unam/ciencias/edd/ArbolBinarioOrdenado.java:363-378 | the visited vertices belong to the tree and their elements are the subtree's pre-order |
| Ordenado.DfsInOrden | src/main/java/mx/unam/ciencias/edd/ArbolBinarioOrdenado.java:385-400 | the visited vertices belong to the tree and their elements are the subtree's in-order |
| Ordenado.DfsPostOrden | src/main/java/mx/unam/ciencias/edd/ArbolBinarioOrdenado.java:407-422 | the visited vertices belong to the tree and their elements are the subtree's post-order |
| Ordenado.DfsVisitaTodo | src/main/java/mx/unam/ciencias/edd/ArbolBinarioOrdenado.java:363-422 | each depth-first traversal from the root visits every vertex exactly once |
| Ordenado.Iterador.constructor | src/main/java/mx/unam/ciencias/edd/ArbolBinarioOrdenado.java:28-31 | the stack starts holding the left spine, so the pending elements are the whole in-order sequence |
| Ordenado.Iterador.AgregaRamaIzquierda | src/main/java/mx/unam/ciencias/edd/ArbolBinarioOrdenado.java:36-41 | pushing a left spine puts that subtree's in-order sequence in front of the pending elements |
| Ordenado.Iterador.HasNext | src/main/java/mx/unam/ciencias/edd/ArbolBinarioOrdenado.java:44-46 | true exactly when elements are still pending |
| Ordenado.Iterador.Next | src/main/java/mx/unam/ciencias/edd/ArbolBinarioOrdenado.java:49-54 | returns the next in-order element and drops it from the pending ones; fails with NoHayElemento when none is pending |
| Ordenado.ArbolBinarioOrdenado.constructor | src/main/java/mx/unam/ciencias/edd/ArbolBinarioOrdenado.java:70 | a new tree is empty with no last-added vertex |
| Ordenado.ArbolBinarioOrdenado.Agrega | src/main/java/mx/unam/ciencias/edd/ArbolBinarioOrdenado.java:86-98 | null fails with ArgumentoInvalido and changes nothing; otherwise the count grows by one, `ultimoAgregado` is the new leaf (the root on an empty tree) and the in-order multiset gains the element |
| Ordenado.ArbolBinarioOrdenado.Elimina | src/main/java/mx/unam/ciencias/edd/ArbolBinarioOrdenado.java:134-149 | an absent element changes nothing; a present one is deleted at the vertex `busca` finds, the count drops by one and one copy leaves the in-order multiset; the ordering invariant is kept |
| Ordenado.ArbolBinarioOrdenado.GiraDerecha | src/main/java/mx/unam/ciencias/edd/ArbolBinarioOrdenado.java:283-316 | no-op on an empty tree, a null handle or a missing left child; otherwise the tree is rotated at the handle; in-order and count unchanged |
| Ordenado.ArbolBinarioOrdenado.GiraIzquierda | src/main/java/mx/unam/ciencias/edd/ArbolBinarioOrdenado.java:323-356 | no-op on an empty tree, a null handle or a missing right child; otherwise the tree is rotated at the handle; in-order and count unchanged |
| Ordenado.ArbolBinarioOrdenado.Limpia | src/main/java/mx/unam/ciencias/edd/ArbolBinario.java:298-301 | afterwards the root is empty, the count is zero and `esVacia` holds |
| Ordenado.ArbolBinarioOrdenado.Iterator | src/main/java/mx/unam/ciencias/edd/ArbolBinarioOrdenado.java:428-430 | a fresh iterator whose pending elements are the tree's in-order sequence, which is sorted |
| AVL.EsAVLSiBalanceado | src/main/java/mx/unam/ciencias/edd/ArbolAVL.java:3-8 | the AVL invariant is exactly "every vertex balanced within one, every cached height correct", and then the cached height equals the recursive height |
| AVL.CalculaAltura | src/main/java/mx/unam/ciencias/edd/ArbolAVL.java:219-234 | the computed height is one more than the larger cached child height (a missing child counts -1) |
| AVL.BalanceVertice | src/main/java/mx/unam/ciencias/edd/ArbolAVL.java:48-59 | the balance is height(left) - height(right) whenever the children's cached heights are correct |
| AVL.Balancea | src/main/java/mx/unam/ciencias/edd/ArbolAVL.java:157-207 | one rebalancing step keeps the subtree's in-order sequence |
| AVL.BalanceaAVL | src/main/java/mx/unam/ciencias/edd/ArbolAVL.java:157-207 | a step on a vertex whose children are AVL and differ by at most two yields an AVL subtree; no rotation when they differ by at most one; after a rotation the height is bounded |
| AVL.EleccionDeGiro | src/main/java/mx/unam/ciencias/edd/ArbolAVL.java:171-207 | balance -2 with a right child of balance +1 is a right-then-left double rotation, other -2 cases a single left rotation, and the mirror for +2 |
| AVL.RotacionSimpleIzquierda | src/main/java/mx/unam/ciencias/edd/ArbolAVL.java:185-187 | a single left rotation with the source's height updates fixes a right lean of two |
| AVL.RotacionDobleIzquierda | src/main/java/mx/unam/ciencias/edd/ArbolAVL.java:176-187 | the right-left double rotation fixes a right lean of two whose right child leans left |
| AVL.RotacionSimpleDerecha | src/main/java/mx/unam/ciencias/edd/ArbolAVL.java:204-206 | a single right rotation fixes a left lean of two |
| AVL.RotacionDobleDerecha | src/main/java/mx/unam/ciencias/edd/ArbolAVL.java:195-206 | the left-right double rotation, with the source's order of height updates, fixes a left lean of two whose left child leans right |
| AVL.GirosMismoInOrden | src/main/java/mx/unam/ciencias/edd/ArbolAVL.java:176-206 | every rotation followed by height recomputation keeps the in-order sequence |
| AVL.PasoAVL | src/main/java/mx/unam/ciencias/edd/ArbolAVL.java:140-210 | at a vertex whose children are AVL after one change of at most one level, the step yields an AVL subtree whose height moved by at most one |
| AVL.PasoCamino | src/main/java/mx/unam/ciencias/edd/ArbolAVL.java:140-210 | one step of the upward walk keeps the walk's invariant and the tree's in-order sequence |
| AVL.SubeAVL | src/main/java/mx/unam/ciencias/edd/ArbolAVL.java:209 | moving to `vertice.padre` re-establishes the walk's precondition at the parent |
| AVL.AgregaAVL | src/main/java/mx/unam/ciencias/edd/ArbolAVL.java:109-112 | after the ordered insertion the walk's precondition holds at the new leaf, and the tree is sorted with one more copy |
| AVL.EliminaAVL | src/main/java/mx/unam/ciencias/edd/ArbolAVL.java:119-134 | after the ordered deletion the walk's precondition holds at the parent of the spliced vertex (or the tree is already AVL) |
| AVL.EliminaEnAVL | src/main/java/mx/unam/ciencias/edd/ArbolAVL.java:125-132 | splicing out the vertex, after the predecessor swap when it has two children, leaves an AVL subtree one level short at most |
| AVL.SegundaEliminacionNula | src/main/java/mx/unam/ciencias/edd/ArbolAVL.java:127-132 | after the splice the handle's position no longer holds the spliced vertex, so the second `eliminaVertice` changes nothing |
| AVL.ArbolAVL.constructor | src/main/java/mx/unam/ciencias/edd/ArbolAVL.java:83 | a new tree is empty |
| AVL.ArbolAVL.RebalanceaArbolAVL | src/main/java/mx/unam/ciencias/edd/ArbolAVL.java:140-210 | the walk to the root leaves an AVL tree with the same in-order sequence and count |
| AVL.ArbolAVL.Agrega | src/main/java/mx/unam/ciencias/edd/ArbolAVL.java:109-112 | null fails with ArgumentoInvalido and changes nothing; otherwise the count grows by one, the in-order sequence is that of the ordered insertion, and the AVL invariant is kept |
| AVL.ArbolAVL.Elimina | src/main/java/mx/unam/ciencias/edd/ArbolAVL.java:119-134 | an absent element changes nothing; a present one leaves the in-order sequence of the ordered deletion and a count one smaller; the AVL invariant is kept |
| AVL.ArbolAVL.GiraDerecha | src/main/java/mx/unam/ciencias/edd/ArbolAVL.java:263-267 | always fails with OperacionNoSoportada |
| AVL.ArbolAVL.GiraIzquierda | src/main/java/mx/unam/ciencias/edd/ArbolAVL.java:276-280 | always fails with OperacionNoSoportada |
| Rojinegro.RaizEsNegra | src/main/java/mx/unam/ciencias/edd/ArbolRojinegro.java:9 | the root of a valid red-black tree is black |
| Rojinegro.CaminosMismoNegro | src/main/java/mx/unam/ciencias/edd/ArbolRojinegro.java:12-13 | in a red-black subtree every downward path to an empty subtree meets the same number of black vertices |
| Rojinegro.GetColor | src/main/java/mx/unam/ciencias/edd/ArbolRojinegro.java:100-105 | fails with ConversionInvalida when the handle denotes no vertex; otherwise returns the vertex's colour, which is ROJO exactly when `esRojo` holds |
| Rojinegro.GetPadre | src/main/java/mx/unam/ciencias/edd/ArbolRojinegro.java:295-299 | the parent exists exactly when the vertex has one, and it is the vertex above |
| Rojinegro.GetAbuelo | src/main/java/mx/unam/ciencias/edd/ArbolRojinegro.java:308-311 | the grandparent exists exactly when there are two ancestors, and it is the vertex two levels up |
| Rojinegro.GetTio | src/main/java/mx/unam/ciencias/edd/ArbolRojinegro.java:319-328 | the uncle is the parent's sibling and exists exactly when the grandparent has that other child |
| Rojinegro.GetHermano | src/main/java/mx/unam/ciencias/edd/ArbolRojinegro.java:336-343 | the sibling is the parent's other child and exists exactly when that child is present |
| Rojinegro.EsIzquierdo | src/main/java/mx/unam/ciencias/edd/ArbolRojinegro.java:352-357 | true means the vertex is its parent's left child, false its right child |
| Rojinegro.HojaRoja | src/main/java/mx/unam/ciencias/edd/ArbolRojinegro.java:113-117 | the new leaf coloured ROJO establishes the insertion fix-up invariant |
| Rojinegro.AgregaRojinegro | src/main/java/mx/unam/ciencias/edd/ArbolRojinegro.java:113-117 | after the ordered insertion and red colouring the tree is sorted, one larger, one copy richer and ready for the fix-up |
| Rojinegro.RaizNegra | src/main/java/mx/unam/ciencias/edd/ArbolRojinegro.java:126-129 | a parentless pending vertex coloured NEGRO leaves a valid red-black tree |
| Rojinegro.PadreNegroTermina | src/main/java/mx/unam/ciencias/edd/ArbolRojinegro.java:131-132 | with a black parent the fix-up stops, and the tree is valid |
| Rojinegro.RecoloreaTioCorrecto | src/main/java/mx/unam/ciencias/edd/ArbolRojinegro.java:138-143 | the red-uncle case (parent and uncle NEGRO, grandparent ROJO) moves the invariant to the grandparent and keeps the in-order sequence |
| Rojinegro.RecoloreaTioSinGiro | src/main/java/mx/unam/ciencias/edd/ArbolRojinegro.java:138-143 | the red-uncle case changes only colours, not the shape or the elements |
| Rojinegro.GiraAgregaCorrecto | src/main/java/mx/unam/ciencias/edd/ArbolRojinegro.java:145-163 | the zig-zag and straight-line rotations at parent and grandparent repair the red violation locally with the same black count |
| Rojinegro.GiraAgregaArbol | src/main/java/mx/unam/ciencias/edd/ArbolRojinegro.java:145-163 | after the rotation case the whole tree is a valid red-black tree with the same in-order sequence |
| Rojinegro.EliminableRN | src/main/java/mx/unam/ciencias/edd/ArbolRojinegro.java:180-182 | the predecessor swap keeps the colouring valid, since it only moves an element |
| Rojinegro.FantasmaSiSinHijos | src/main/java/mx/unam/ciencias/edd/ArbolRojinegro.java:184-199 | the slot left by the splice is empty (the phantom's place) exactly when the removed vertex had no children; otherwise it holds the only child |
| Rojinegro.EliminaRN | src/main/java/mx/unam/ciencias/edd/ArbolRojinegro.java:202-207 | if the promoted child or the removed vertex is red, blackening the child finishes with a valid tree; otherwise the deletion fix-up invariant holds |
| Rojinegro.HermanoExiste | src/main/java/mx/unam/ciencias/edd/ArbolRojinegro.java:224-240 | a vertex one black short below a parent always has a sibling |
| Rojinegro.HermanoRojoCorrecto | src/main/java/mx/unam/ciencias/edd/ArbolRojinegro.java:226-237 | the red-sibling rotation keeps the invariant, gives a black sibling and a red parent, and keeps the in-order sequence |
| Rojinegro.SubeRecoloreandoCorrecto | src/main/java/mx/unam/ciencias/edd/ArbolRojinegro.java:242-246 | with black parent, sibling and nephews, recolouring the sibling red moves the deficit to the parent |
| Rojinegro.RecoloreaPadreCorrecto | src/main/java/mx/unam/ciencias/edd/ArbolRojinegro.java:248-252 | with a red parent and black sibling and nephews, swapping their colours finishes with a valid tree |
| Rojinegro.GiraSobrinoCorrecto | src/main/java/mx/unam/ciencias/edd/ArbolRojinegro.java:254-273 | the near-nephew rotation turns the case into the far-nephew case, keeping the in-order sequence |
| Rojinegro.SinGiroSobrino | src/main/java/mx/unam/ciencias/edd/ArbolRojinegro.java:254-273 | when no near-nephew rotation is needed the far-nephew case already holds |
| Rojinegro.GiraPadreCorrecto | src/main/java/mx/unam/ciencias/edd/ArbolRojinegro.java:275-285 | the final rotation at the parent with recolouring finishes with a valid tree and the same in-order sequence |
| Rojinegro.ArbolRojinegro.constructor | src/main/java/mx/unam/ciencias/edd/ArbolRojinegro.java:71 | a new tree is empty |
| Rojinegro.ArbolRojinegro.RebalanceoAgrega | src/main/java/mx/unam/ciencias/edd/ArbolRojinegro.java:124-164 | the insertion fix-up leaves a valid red-black tree with the same in-order sequence and count |
| Rojinegro.ArbolRojinegro.Agrega | src/main/java/mx/unam/ciencias/edd/ArbolRojinegro.java:113-118 | null fails and changes nothing; otherwise the count grows by one, the in-order sequence is that of the ordered insertion, the root is black and the tree is a valid red-black tree |
| Rojinegro.ArbolRojinegro.RebalanceoElimina | src/main/java/mx/unam/ciencias/edd/ArbolRojinegro.java:218-287 | the deletion fix-up leaves a valid red-black tree with the same in-order sequence and count |
| Rojinegro.ArbolRojinegro.TerminaElimina | src/main/java/mx/unam/ciencias/edd/ArbolRojinegro.java:248-287 | the terminating cases of the deletion fix-up leave a valid red-black tree with the same in-order sequence |
| Rojinegro.ArbolRojinegro.EliminaEnRojinegro | src/main/java/mx/unam/ciencias/edd/ArbolRojinegro.java:180-211 | deletion at a vertex leaves a valid red-black tree with the in-order sequence of the ordered deletion |
| Rojinegro.ArbolRojinegro.Elimina | src/main/java/mx/unam/ciencias/edd/ArbolRojinegro.java:172-212 | an absent element changes nothing; a present one leaves the in-order sequence of the ordered deletion, a count one smaller and a valid red-black tree |
| Rojinegro.ArbolRojinegro.GiraIzquierda | src/main/java/mx/unam/ciencias/edd/ArbolRojinegro.java:377-381 | always fails with OperacionNoSoportada |
| Rojinegro.ArbolRojinegro.GiraDerecha | src/main/java/mx/unam/ciencias/edd/ArbolRojinegro.java:390-394 | always fails with OperacionNoSoportada |
| Completo.NivelesDeArbol | src/main/java/mx/unam/ciencias/edd/ArbolBinarioCompleto.java:173-187 | the breadth-first order of the linked tree rebuilt from the level-order sequence is that sequence |
| Completo.NivelesDeRango | src/main/java/mx/unam/ciencias/edd/ArbolBinarioCompleto.java:173-187 | from a queue holding the subtrees at indices a, a+1, ..., the breadth-first traversal yields the sequence from index a on |
| Completo.AlturaSubArbol | src/main/java/mx/unam/ciencias/edd/ArbolBinarioCompleto.java:153-157 | the subtree at index i of a complete tree of n vertices has height h with (i+1)·2^h <= n < (i+1)·2^(h+1) |
| Completo.LogaritmoUnico | src/main/java/mx/unam/ciencias/edd/ArbolBinarioCompleto.java:159-166 | at most one k satisfies 2^k <= n < 2^(k+1) |
| Completo.UltimoEnNiveles | src/main/java/mx/unam/ciencias/edd/ArbolBinarioCompleto.java:127-137 | the breadth-first walk ends at the last vertex of the level order |
| Completo.PrimerIndice | src/main/java/mx/unam/ciencias/edd/ArbolBinario.java:255-273 | the first position holding the element, present exactly when the element occurs |
| Completo.BuscaEnCompleto | src/main/java/mx/unam/ciencias/edd/ArbolBinario.java:255-273 | on a complete tree the breadth-first `busca` returns the vertex at the first index of the element in the level order, and nothing when the element is absent |
| Completo.EliminaUnaCopia | src/main/java/mx/unam/ciencias/edd/ArbolBinarioCompleto.java:139-145 | overwriting a slot with the last element and dropping the last removes exactly one copy of the overwritten element |
| Completo.ArbolBinarioCompleto.constructor | src/main/java/mx/unam/ciencias/edd/ArbolBinarioCompleto.java:51 | a new tree is empty |
| Completo.ArbolBinarioCompleto.Agrega | src/main/java/mx/unam/ciencias/edd/ArbolBinarioCompleto.java:70-105 | null fails with ArgumentoInvalido and changes nothing; otherwise the element is appended to the level order and the count grows by one |
| Completo.ArbolBinarioCompleto.Elimina | src/main/java/mx/unam/ciencias/edd/ArbolBinarioCompleto.java:114-146 | an absent element changes nothing; a present one's first slot in level order gets the last element, the last slot goes, the count drops by one and one copy leaves; deleting the only element empties the tree |
| Completo.ArbolBinarioCompleto.AlturaCompleta | src/main/java/mx/unam/ciencias/edd/ArbolBinarioCompleto.java:153-157 | -1 on an empty tree, otherwise h with 2^h <= elementos < 2^(h+1); in both cases the height of the linked tree |
| Completo.ArbolBinarioCompleto.Log2 | src/main/java/mx/unam/ciencias/edd/ArbolBinarioCompleto.java:159-166 | for n >= 1 the count of halvings k satisfies 2^k <= n < 2^(k+1); for n <= 1 it is 0 |
| Completo.ArbolBinarioCompleto.Bfs | src/main/java/mx/unam/ciencias/edd/ArbolBinarioCompleto.java:173-187 | the vertices are visited in level order, each index once |
| Completo.ArbolBinarioCompleto.Iterator | src/main/java/mx/unam/ciencias/edd/ArbolBinarioCompleto.java:193-195 | a fresh iterator whose pending elements are the level-order sequence |
| Completo.Iterador.constructor | src/main/java/mx/unam/ciencias/edd/ArbolBinarioCompleto.java:21-25 | the queue starts at the root, so every element is pending in level order |
| Completo.Iterador.HasNext | src/main/java/mx/unam/ciencias/edd/ArbolBinarioCompleto.java:28-30 | true exactly when elements are still pending |
| Completo.Iterador.Next | src/main/java/mx/unam/ciencias/edd/ArbolBinarioCompleto.java:33-44 | fails with NoHayElemento when exhausted; otherwise returns the next element in level order and drops it |

## Left out

- Rendering (`toString`, `dibujaEspacios`) and the exception message texts. Only the kind of error is modelled, as a `Resultado` value.
- The constructors that take a `Coleccion`, and the `Pila`, `Cola`, `Coleccion` and `VerticeArbolBinario` types.
  - A stack or queue is a `seq`.
  - A visitor callback (`AccionVerticeArbolBinario`) is modelled as the returned sequence of visited vertices, in visiting order.
- Object identity and aliasing.
  - Vertices are values, and a handle is a zipper into the tree.
  - A handle from another tree is ruled out by a precondition of `Ordenado.ArbolBinarioOrdenado.GiraDerecha` and `GiraIzquierda`. The Java code does not check this.
  - The `getClass()` tests in `equals`, the downcasts in `vertice(...)`, and `getHijoIzquierdo`/`getHijoDerecho` (casts of a child) have no counterpart.
  - The AVL and red-black vertex `equals` overrides are not modelled separately: `Vertices.Iguales` compares shape and elements only.
- `Rojinegro.GetColor`: any handle that denotes no vertex fails with `ConversionInvalida`, standing in for the `ClassCastException` of the cast.
- Generic keys with a `Comparable` or `Comparator` are replaced by `int` with its natural order.
- A `null` element is modelled as `Option.None` for the classes' `agrega` and for the breadth-first `busca` and `contiene` of `ArbolBinario` (`ArbolBinario.Busca`, `ArbolBinario.Contiene`). `elimina` takes a plain `int`, so its null case is not modelled.
- Ordenado.BuscaOrdenado: takes a plain `int`. On a non-empty ordered tree, the Java `busca(null)` (ArbolBinarioOrdenado.java:251) and the inherited `contiene(null)` throw `NullPointerException` at `compareTo`; on an empty tree they return null and false. That null case is not modelled for the ordered, AVL and red-black trees.
- `ArbolRojinegro.elimina` builds a phantom vertex. The model does not create it: the empty slot left by the splice plays its role, and the fix-up runs on a handle whose focus is `Nulo`. It is therefore never counted and never left in the tree. Its black colour is the black colour of an empty subtree in `Rojinegro.EsRojo`. See `Rojinegro.FantasmaSiSinHijos`.
- The tail-recursive `rebalanceaArbolAVL`, `rebalanceoAgrega` and `rebalanceoElimina` are loops. The terminating cases of `rebalanceoElimina` are split off into `TerminaElimina`.
- In `ArbolAVL.elimina`, the second `eliminaVertice` call is folded into the first. `AVL.SegundaEliminacionNula` shows that it changes nothing.
- `ultimoAgregado` is kept only by the ordered tree. The AVL and red-black classes read the new leaf directly from the insertion. `getUltimoVerticeAgregado` is a read of that field, stated by `Ordenado.ArbolBinarioOrdenado.Agrega`.
- `AVL.ArbolAVL.Agrega`, `AVL.ArbolAVL.Elimina`, `Rojinegro.ArbolRojinegro.Agrega` and `Rojinegro.ArbolRojinegro.Elimina` state the resulting in-order sequence, not the exact shape after the rotations.
- The complete tree keeps its level-order sequence. The linked tree and its parent links are derived from it, and its breadth-first queues hold indices instead of vertices.
- The width of Java `int` is not modelled: the `log2` argument and the element counters are unbounded.
- The iterators work on a snapshot of the tree. Changing the tree during an iteration is not modelled.
- The doc comment of `profundidad` says a parentless vertex has depth -1, but the code returns 0. The model follows the code.
- Performance: the AVL walk always climbing to the root, and the cost of the `log2` loop.
