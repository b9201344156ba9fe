/** Runs of the task subsystem: any sequence of adds, deletes and completions
    applied one after another. Used to state what holds across calls: the
    store invariant, the capacity rule and that ids are never handed out twice. */
module TareaHistorial {
  import opened Wrappers
  import opened TareaModel
  import opened TareaRepository
  import opened TareaService

  /** One call into the subsystem. */
  datatype Operacion =
    | Agregar(descripcion: string, prioridad: Prioridad)
    | Eliminar(id: int)
    | Completar(id: int)

  /** The state after one call. */
  function Paso(sv: Servicio, op: Operacion): Servicio {
    match op
    case Agregar(d, p) => AgregarTarea(sv, d, p).0
    case Eliminar(id) => sv.(repositorio := EliminarPorId(sv.repositorio, id).0)
    case Completar(id) => MarcarComoCompletada(sv, id).0
  }

  /** The state after a whole run. */
  function Ejecutar(sv: Servicio, ops: seq<Operacion>): Servicio
    decreases |ops|
  {
    if |ops| == 0 then sv else Ejecutar(Paso(sv, ops[0]), ops[1..])
  }

  /** The id handed out by one call: one id for a successful add, none otherwise. */
  function IdsDelPaso(sv: Servicio, op: Operacion): seq<nat> {
    match op
    case Agregar(d, p) =>
      (match AgregarTarea(sv, d, p).1
       case Success(t) => [t.id]
       case Failure(_) => [])
    case _ => []
  }

  /** The ids handed out by the successful adds of a run, in call order. */
  function IdsAsignados(sv: Servicio, ops: seq<Operacion>): seq<nat>
    decreases |ops|
  {
    if |ops| == 0 then []
    else IdsDelPaso(sv, ops[0]) + IdsAsignados(Paso(sv, ops[0]), ops[1..])
  }

  /** One call never moves the counter back; a call that hands out an id
      hands out the current counter value and advances the counter by one. */
  lemma PasoAvanzaContador(sv: Servicio, op: Operacion)
    ensures Paso(sv, op).repositorio.contador >= sv.repositorio.contador
    ensures IdsDelPaso(sv, op) == [] || (IdsDelPaso(sv, op) == [sv.repositorio.contador]
      && Paso(sv, op).repositorio.contador == sv.repositorio.contador + 1)
  {
  }

  /** The counter never moves back over a run. */
  lemma {:induction false} ContadorMonotono(sv: Servicio, ops: seq<Operacion>)
    ensures Ejecutar(sv, ops).repositorio.contador >= sv.repositorio.contador
    decreases |ops|
  {
    if |ops| != 0 {
      PasoAvanzaContador(sv, ops[0]);
      ContadorMonotono(Paso(sv, ops[0]), ops[1..]);
    }
  }

  /** Every call keeps the store invariant and leaves the ceiling alone. */
  lemma {:induction false} EjecutarPreservaValido(sv: Servicio, ops: seq<Operacion>)
    requires Valido(sv.repositorio)
    ensures Valido(Ejecutar(sv, ops).repositorio)
    ensures Ejecutar(sv, ops).maxTareas == sv.maxTareas
    decreases |ops|
  {
    if |ops| != 0 {
      if ops[0].Eliminar? {
        EliminarPreservaValido(sv.repositorio, ops[0].id);
      }
      EjecutarPreservaValido(Paso(sv, ops[0]), ops[1..]);
    }
  }

  /** `ids` is strictly increasing and lies in `[desde, hasta)`. */
  predicate CrecienteEntre(ids: seq<nat>, desde: nat, hasta: nat) {
    && (forall i :: 0 <= i < |ids| ==> desde <= ids[i] < hasta)
    && (forall i, j :: 0 <= i < j < |ids| ==> ids[i] < ids[j])
  }

  /** Prefixing the id of one step to the ids of the rest of a run keeps them
      increasing and in range. */
  lemma AnteponerId(primero: seq<nat>, resto: seq<nat>, desde: nat, medio: nat, hasta: nat)
    requires primero == [] || (primero == [desde] && medio == desde + 1)
    requires desde <= medio <= hasta
    requires CrecienteEntre(resto, medio, hasta)
    ensures CrecienteEntre(primero + resto, desde, hasta)
  {
  }

  /** Ids are handed out in strictly increasing order, from the counter value
      at the start of the run up to the counter value at its end, so no id
      below the starting counter (present before the run, or deleted since)
      is ever issued again. */
  lemma {:induction false} IdsNuncaReutilizados(sv: Servicio, ops: seq<Operacion>)
    ensures CrecienteEntre(IdsAsignados(sv, ops), sv.repositorio.contador, Ejecutar(sv, ops).repositorio.contador)
    decreases |ops|
  {
    if |ops| == 0 {
    } else {
      var sv' := Paso(sv, ops[0]);
      IdsNuncaReutilizados(sv', ops[1..]);
      PasoAvanzaContador(sv, ops[0]);
      assert Ejecutar(sv, ops) == Ejecutar(sv', ops[1..]);
      ContadorMonotono(sv', ops[1..]);
      AnteponerId(IdsDelPaso(sv, ops[0]), IdsAsignados(sv', ops[1..]),
        sv.repositorio.contador, sv'.repositorio.contador, Ejecutar(sv, ops).repositorio.contador);
    }
  }

  /** No id a run hands out belongs to a task stored when the run began. */
  lemma {:induction false} IdsNoPresentes(sv: Servicio, ops: seq<Operacion>)
    requires Valido(sv.repositorio)
    ensures forall i, k :: 0 <= i < |IdsAsignados(sv, ops)| && 0 <= k < |sv.repositorio.tareas| ==>
      IdsAsignados(sv, ops)[i] != sv.repositorio.tareas[k].id
  {
    IdsNuncaReutilizados(sv, ops);
  }

  /** Adds that stay within the ceiling all succeed, each one adds a task,
      and once the store holds `maxTareas` tasks the next add is refused
      without touching the state. */
  lemma {:induction false} AgregarHastaElLimite(sv: Servicio, ops: seq<Operacion>, d: string, p: Prioridad)
    requires forall i :: 0 <= i < |ops| ==> ops[i].Agregar?
    requires Contar(sv.repositorio) + |ops| <= sv.maxTareas
    ensures Contar(Ejecutar(sv, ops).repositorio) == Contar(sv.repositorio) + |ops|
    ensures |IdsAsignados(sv, ops)| == |ops|
    ensures Contar(sv.repositorio) + |ops| == sv.maxTareas ==>
      AgregarTarea(Ejecutar(sv, ops), d, p) == (Ejecutar(sv, ops), Failure(LimiteAlcanzado(sv.maxTareas)))
    decreases |ops|
  {
    if |ops| != 0 {
      var sv' := Paso(sv, ops[0]);
      assert AgregarTarea(sv, ops[0].descripcion, ops[0].prioridad).1.Success?;
      AgregarHastaElLimite(sv', ops[1..], d, p);
    }
  }

  /** An add below the ceiling hands out the current counter value. */
  lemma AgregarDentroDelLimite(sv: Servicio, d: string, p: Prioridad)
    requires Contar(sv.repositorio) < sv.maxTareas
    ensures IdsDelPaso(sv, Agregar(d, p)) == [sv.repositorio.contador]
    ensures Contar(Paso(sv, Agregar(d, p)).repositorio) == Contar(sv.repositorio) + 1
    ensures Paso(sv, Agregar(d, p)).repositorio.contador == sv.repositorio.contador + 1
    ensures Paso(sv, Agregar(d, p)).maxTareas == sv.maxTareas
    ensures Valido(sv.repositorio) ==> Valido(Paso(sv, Agregar(d, p)).repositorio)
  {
  }

  /** The ids of a run are those of its first call followed by those of the rest. */
  lemma IdsAsignadosPaso(sv: Servicio, op: Operacion, ops: seq<Operacion>)
    ensures IdsAsignados(sv, [op] + ops) == IdsDelPaso(sv, op) + IdsAsignados(Paso(sv, op), ops)
  {
    assert ([op] + ops)[1..] == ops;
  }

  /** A delete followed by an add below the ceiling: the add receives the
      counter value, whatever the delete removed. */
  lemma EliminarYAgregar(sv: Servicio, x: int, d: string, p: Prioridad)
    requires Valido(sv.repositorio)
    requires Contar(sv.repositorio) < sv.maxTareas
    ensures IdsAsignados(sv, [Eliminar(x), Agregar(d, p)]) == [sv.repositorio.contador]
  {
    var sv1 := Paso(sv, Eliminar(x));
    EliminarQuitaUna(sv.repositorio, x);
    AgregarDentroDelLimite(sv1, d, p);
    IdsAsignadosPaso(sv1, Agregar(d, p), []);
    IdsAsignadosPaso(sv, Eliminar(x), [Agregar(d, p)]);
    assert [Eliminar(x)] + [Agregar(d, p)] == [Eliminar(x), Agregar(d, p)];
  }

  /** From the seeded store: deleting task 5, the highest id in use, does
      remove it, and the next add then receives 6 and not the freed 5. */
  lemma {:induction false} EscenarioSinReutilizacion(d: string, p: Prioridad)
    ensures EliminarPorId(Inicial(), 5).1
    ensures IdsAsignados(Servicio(Inicial(), 10), [Eliminar(5), Agregar(d, p)]) == [6]
  {
    assert Inicial().tareas[4].id == 5;
    EliminarYAgregar(Servicio(Inicial(), 10), 5, d, p);
  }
}
