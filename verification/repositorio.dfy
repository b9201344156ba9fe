/** The in-memory task store: an ordered list of tasks and a monotonic
    id counter that starts at 1. Every operation is a pure transition
    from one store value to the next. */
module TareaRepository {
  import opened Wrappers
  import opened Secuencias
  import opened TareaModel

  datatype Repositorio = Repositorio(tareas: seq<Tarea>, contador: nat)

  /** No two stored tasks share an id. */
  predicate IdsUnicos(ts: seq<Tarea>) {
    forall i, j :: 0 <= i < j < |ts| ==> ts[i].id != ts[j].id
  }

  /** Every stored id was issued by the counter: it is at least 1 and
      strictly below the counter's current value. */
  predicate IdsEmitidos(ts: seq<Tarea>, contador: nat) {
    forall i :: 0 <= i < |ts| ==> 1 <= ts[i].id < contador
  }

  /** The store invariant kept by every operation. */
  predicate Valido(r: Repositorio) {
    && 1 <= r.contador
    && IdsEmitidos(r.tareas, r.contador)
    && IdsUnicos(r.tareas)
  }

  /** `i` is the position of the first task whose id is `id`. */
  predicate EsPrimera(ts: seq<Tarea>, id: int, i: int) {
    && 0 <= i < |ts|
    && ts[i].id == id
    && forall j :: 0 <= j < i ==> ts[j].id != id
  }

  /** The key used by `Secuencias.SubsecuenciaInyectiva` for tasks. */
  function Id(t: Tarea): nat {
    t.id
  }

  /** The predicate kept by `eliminarPorId`: the task does not carry `id`. */
  function DistintoId(id: int): Tarea -> bool {
    (t: Tarea) => t.id != id
  }

  /** An empty store whose counter has not issued any id yet. */
  const Vacio: Repositorio := Repositorio([], 1)

  /** Stamps the next counter value on `t`, appends it, advances the counter
      and returns the stored task. */
  function Guardar(r: Repositorio, t: Tarea): (res: (Repositorio, Tarea))
    ensures res.1.id == r.contador
    ensures res.1.descripcion == t.descripcion
    ensures res.1.completada == t.completada
    ensures res.1.prioridad == t.prioridad
    ensures res.0.contador == r.contador + 1
    ensures |res.0.tareas| == |r.tareas| + 1
    ensures res.0.tareas[..|r.tareas|] == r.tareas
    ensures res.0.tareas[|r.tareas|] == res.1
    ensures Valido(r) ==> Valido(res.0)
    ensures Valido(r) ==> forall i :: 0 <= i < |r.tareas| ==> r.tareas[i].id < res.1.id
  {
    var guardada := t.(id := r.contador);
    (Repositorio(r.tareas + [guardada], r.contador + 1), guardada)
  }

  /** The store as the constructor leaves it: five example tasks stamped with
      consecutive counter values (the constructor's `getAndIncrement` has the
      same effect as `Guardar`). */
  function Inicial(): (r: Repositorio)
    ensures Valido(r)
    ensures |r.tareas| == 5 && r.contador == 6
    ensures forall i :: 0 <= i < 5 ==> r.tareas[i].id == i + 1
    ensures forall i :: 0 <= i < 5 ==> (r.tareas[i].completada <==> 3 <= i)
  {
    var r1 := Guardar(Vacio, Tarea(0, "Estudiar Spring Boot", false, Alta)).0;
    var r2 := Guardar(r1, Tarea(0, "Completar el TP de Programación III", false, Alta)).0;
    var r3 := Guardar(r2, Tarea(0, "Revisar conceptos de inyección de dependencias", false, Media)).0;
    var r4 := Guardar(r3, Tarea(0, "Practicar Gradle y configuración de proyectos", true, Media)).0;
    Guardar(r4, Tarea(0, "Leer documentación de Lombok", true, Baja)).0
  }

  /** Copies the stored list element by element, as `new ArrayList<>(tareas)` does. */
  method ObtenerTodas(r: Repositorio) returns (copia: seq<Tarea>)
    ensures copia == r.tareas
  {
    copia := [];
    var i := 0;
    while i < |r.tareas|
      invariant 0 <= i <= |r.tareas|
      invariant copia == r.tareas[..i]
    {
      copia := copia + [r.tareas[i]];
      i := i + 1;
    }
  }

  /** Position of the first task whose id is `id`, if any. */
  function BuscarIndice(ts: seq<Tarea>, id: int): (k: Option<nat>)
    ensures k.None? <==> forall i :: 0 <= i < |ts| ==> ts[i].id != id
    ensures k.Some? ==> EsPrimera(ts, id, k.value)
  {
    if |ts| == 0 then None
    else if ts[0].id == id then Some(0)
    else
      match BuscarIndice(ts[1..], id)
      case None => None
      case Some(k) => Some(k + 1)
  }

  /** The first stored task whose id is `id`, or `None`. */
  function BuscarPorId(r: Repositorio, id: int): (res: Option<Tarea>)
    ensures res.None? <==> forall i :: 0 <= i < |r.tareas| ==> r.tareas[i].id != id
    ensures res.Some? ==> exists i :: EsPrimera(r.tareas, id, i) && r.tareas[i] == res.value
  {
    match BuscarIndice(r.tareas, id)
    case None => None
    case Some(k) => Some(r.tareas[k])
  }

  /** Removes every task whose id is `id`; reports whether anything was removed. */
  function EliminarPorId(r: Repositorio, id: int): (res: (Repositorio, bool))
    ensures res.1 <==> exists i :: 0 <= i < |r.tareas| && r.tareas[i].id == id
    ensures forall i :: 0 <= i < |res.0.tareas| ==> res.0.tareas[i].id != id
    ensures forall t :: multiset(res.0.tareas)[t] == if t.id == id then 0 else multiset(r.tareas)[t]
    ensures EsSubsecuencia(res.0.tareas, r.tareas)
    ensures res.0.contador == r.contador
    ensures !res.1 ==> res.0 == r
  {
    var restantes := Filtrar(r.tareas, DistintoId(id));
    FiltrarCompleto(r.tareas, DistintoId(id));
    FiltrarMultiset(r.tareas, DistintoId(id));
    FiltrarSubsecuencia(r.tareas, DistintoId(id));
    (Repositorio(restantes, r.contador), |restantes| != |r.tareas|)
  }

  /** Number of stored tasks. Under the invariant it never reaches the
      counter: there are never more tasks than ids issued. */
  function Contar(r: Repositorio): (n: nat)
    ensures Valido(r) ==> n < r.contador
  {
    ContarIdsDistintos(r);
    |r.tareas|
  }

  /** Under the invariant each stored task carries its own id, so the count
      is the number of ids in use, which is at most the number issued. */
  lemma ContarIdsDistintos(r: Repositorio)
    ensures Valido(r) ==> |r.tareas| == |IdsDe(r.tareas)| < r.contador
  {
    IdsDeCardinal(r.tareas);
    IdsDeAcotados(r.tareas, r.contador);
  }

  /** The ids carried by the tasks of `ts`. */
  function IdsDe(ts: seq<Tarea>): set<nat> {
    set i | 0 <= i < |ts| :: ts[i].id
  }

  /** The ids the counter has issued before reaching `contador`. */
  function Emitidos(contador: nat): (e: set<nat>)
    ensures forall k :: k in e <==> 1 <= k < contador
    decreases contador
  {
    if contador <= 1 then {} else Emitidos(contador - 1) + {contador - 1}
  }

  /** With unique ids there are as many ids as tasks. */
  lemma {:induction false} IdsDeCardinal(ts: seq<Tarea>)
    ensures IdsUnicos(ts) ==> |IdsDe(ts)| == |ts|
    decreases |ts|
  {
    if |ts| != 0 && IdsUnicos(ts) {
      var n := |ts| - 1;
      var inicio := ts[..n];
      assert forall i :: 0 <= i < n ==> inicio[i] == ts[i];
      IdsDeCardinal(inicio);
      assert IdsDe(ts) == IdsDe(inicio) + {ts[n].id};
      assert ts[n].id !in IdsDe(inicio);
    }
  }

  /** The counter has issued `contador - 1` ids. */
  lemma {:induction false} EmitidosCardinal(contador: nat)
    requires 1 <= contador
    ensures |Emitidos(contador)| == contador - 1
    decreases contador
  {
    if contador == 1 {
      assert Emitidos(contador) == {};
    } else {
      EmitidosCardinal(contador - 1);
      assert Emitidos(contador) == Emitidos(contador - 1) + {contador - 1};
    }
  }

  /** Ids that were all issued number at most the ids issued. */
  lemma IdsDeAcotados(ts: seq<Tarea>, contador: nat)
    ensures 1 <= contador && IdsEmitidos(ts, contador) ==> |IdsDe(ts)| < contador
  {
    if 1 <= contador && IdsEmitidos(ts, contador) {
      assert IdsDe(ts) <= Emitidos(contador);
      EmitidosCardinal(contador);
      SubconjuntoCardinal(IdsDe(ts), Emitidos(contador));
    }
  }

  /** A subset is no larger than its superset. */
  lemma {:induction false} SubconjuntoCardinal<T>(a: set<T>, b: set<T>)
    requires a <= b
    ensures |a| <= |b|
    decreases |b|
  {
    if b != {} {
      var x :| x in b;
      SubconjuntoCardinal(a - {x}, b - {x});
    }
  }

  /** Removing keeps the store invariant: survivors keep their ids and their order. */
  lemma EliminarPreservaValido(r: Repositorio, id: int)
    requires Valido(r)
    ensures Valido(EliminarPorId(r, id).0)
  {
    var r' := EliminarPorId(r, id).0;
    SubsecuenciaContenida(r'.tareas, r.tareas);
    SubsecuenciaInyectiva(r'.tareas, r.tareas, Id);
  }

  /** Under the invariant the first match is the only match. */
  lemma CoincidenciaUnica(r: Repositorio, id: int, i: int)
    requires Valido(r)
    requires 0 <= i < |r.tareas| && r.tareas[i].id == id
    ensures EsPrimera(r.tareas, id, i)
    ensures BuscarPorId(r, id) == Some(r.tareas[i])
  {
  }

  /** A just-saved task is found under its new id, and every other lookup is
      unaffected by the save. */
  lemma BuscarTrasGuardar(r: Repositorio, t: Tarea, id: int)
    requires Valido(r)
    ensures BuscarPorId(Guardar(r, t).0, r.contador) == Some(Guardar(r, t).1)
    ensures id != r.contador ==> BuscarPorId(Guardar(r, t).0, id) == BuscarPorId(r, id)
  {
    var (r', g) := Guardar(r, t);
    CoincidenciaUnica(r', r.contador, |r.tareas|);
    if id != r.contador {
      assert r'.tareas == r.tareas + [g];
      match BuscarIndice(r.tareas, id)
      case None =>
      case Some(k) =>
        assert EsPrimera(r'.tareas, id, k);
    }
  }

  /** Deleting the id a save has just issued undoes the save, except that the
      counter stays advanced: the id is not handed out again. */
  lemma EliminarDeshaceGuardar(r: Repositorio, t: Tarea)
    requires Valido(r)
    ensures EliminarPorId(Guardar(r, t).0, r.contador) == (Repositorio(r.tareas, r.contador + 1), true)
  {
    var r' := Guardar(r, t).0;
    var g := Guardar(r, t).1;
    var p := DistintoId(r.contador);
    assert Filtrar(r'.tareas, p) == r.tareas by {
      assert r'.tareas == r.tareas + [g];
      assert forall i :: 0 <= i < |r.tareas| ==> p(r.tareas[i]);
      assert !p(g);
      FiltrarCompleto(r.tareas, p);
      FiltrarCompleto([g], p);
      FiltrarConcat(r.tareas, [g], p);
    }
    var e := EliminarPorId(r', r.contador);
    assert e.0 == Repositorio(r.tareas, r.contador + 1);
    assert e.1 by {
      assert |e.0.tareas| != |r'.tareas|;
    }
    assert e == (e.0, e.1);
  }

  /** Under the invariant a successful delete removes exactly one task. */
  lemma EliminarQuitaUna(r: Repositorio, id: int)
    requires Valido(r)
    ensures var (r', eliminada) := EliminarPorId(r, id);
            Contar(r') == if eliminada then Contar(r) - 1 else Contar(r)
  {
    var p := DistintoId(id);
    var ts := r.tareas;
    match BuscarIndice(ts, id)
    case None =>
      assert !EliminarPorId(r, id).1;
    case Some(k) =>
      var antes, despues := ts[..k], ts[k + 1..];
      assert |Filtrar(ts, p)| == |ts| - 1 by {
        assert ts == antes + [ts[k]] + despues;
        forall i | 0 <= i < |despues|
          ensures p(despues[i])
        {
          assert despues[i] == ts[k + 1 + i];
        }
        FiltrarQuitaUno(antes, ts[k], despues, p);
      }
      assert EliminarPorId(r, id).1;
  }
}
