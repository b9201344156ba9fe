/** The business rules on top of the task store: a configured ceiling on the
    number of tasks, the pending and completed views, marking a task as
    completed, and the counts behind the statistics report. */
module TareaService {
  import opened Wrappers
  import opened Secuencias
  import opened TareaModel
  import opened TareaRepository

  /** The service's state: the store it delegates to and the ceiling read
      from the `app.max-tareas` setting. */
  datatype Servicio = Servicio(repositorio: Repositorio, maxTareas: int)

  /** The `IllegalStateException` raised when the ceiling has been reached. */
  datatype Error = LimiteAlcanzado(maxTareas: int)

  /** The three numbers the statistics report prints. */
  datatype Estadisticas = Estadisticas(total: nat, completadas: nat, pendientes: nat)

  /** Adds a new pending task unless the store already holds `maxTareas` tasks
      or more; on refusal the state is left exactly as it was. */
  function AgregarTarea(sv: Servicio, descripcion: string, prioridad: Prioridad): (res: (Servicio, Result<Tarea, Error>))
    ensures res.1.Failure? <==> Contar(sv.repositorio) >= sv.maxTareas
    ensures res.1.Failure? ==> res.0 == sv && res.1.error == LimiteAlcanzado(sv.maxTareas)
    ensures res.1.Success? ==>
      && res.1.value == Tarea(sv.repositorio.contador, descripcion, false, prioridad)
      && res.0.maxTareas == sv.maxTareas
      && res.0.repositorio.tareas == sv.repositorio.tareas + [res.1.value]
      && res.0.repositorio.contador == sv.repositorio.contador + 1
      && Contar(res.0.repositorio) <= sv.maxTareas
    ensures Valido(sv.repositorio) ==> Valido(res.0.repositorio)
  {
    if Contar(sv.repositorio) >= sv.maxTareas then
      (sv, Failure(LimiteAlcanzado(sv.maxTareas)))
    else
      var (repositorio', guardada) := Guardar(sv.repositorio, Tarea(0, descripcion, false, prioridad));
      assert repositorio'.tareas == repositorio'.tareas[..|sv.repositorio.tareas|] + [guardada];
      (sv.(repositorio := repositorio'), Success(guardada))
  }

  /** Every stored task, in insertion order. */
  method ListarTodas(sv: Servicio) returns (todas: seq<Tarea>)
    ensures todas == sv.repositorio.tareas
  {
    todas := ObtenerTodas(sv.repositorio);
  }

  /** The tasks not yet completed, in insertion order. */
  function ListarPendientes(sv: Servicio): (r: seq<Tarea>)
    ensures forall i :: 0 <= i < |r| ==> !r[i].completada
    ensures forall t :: multiset(r)[t] == if t.completada then 0 else multiset(sv.repositorio.tareas)[t]
    ensures EsSubsecuencia(r, sv.repositorio.tareas)
  {
    FiltrarMultiset(sv.repositorio.tareas, Pendiente);
    FiltrarSubsecuencia(sv.repositorio.tareas, Pendiente);
    Filtrar(sv.repositorio.tareas, Pendiente)
  }

  /** The completed tasks, in insertion order. */
  function ListarCompletadas(sv: Servicio): (r: seq<Tarea>)
    ensures forall i :: 0 <= i < |r| ==> r[i].completada
    ensures forall t :: multiset(r)[t] == if t.completada then multiset(sv.repositorio.tareas)[t] else 0
    ensures EsSubsecuencia(r, sv.repositorio.tareas)
  {
    FiltrarMultiset(sv.repositorio.tareas, Completada);
    FiltrarSubsecuencia(sv.repositorio.tareas, Completada);
    Filtrar(sv.repositorio.tareas, Completada)
  }

  /** Sets the completion flag of the first task whose id is `id` (the task
      the lookup returns by reference) and reports whether it was found. */
  function MarcarComoCompletada(sv: Servicio, id: int): (res: (Servicio, bool))
    ensures res.1 <==> exists i :: 0 <= i < |sv.repositorio.tareas| && sv.repositorio.tareas[i].id == id
    ensures !res.1 ==> res.0 == sv
    ensures res.0.maxTareas == sv.maxTareas
    ensures res.0.repositorio.contador == sv.repositorio.contador
    ensures |res.0.repositorio.tareas| == |sv.repositorio.tareas|
    ensures forall i :: 0 <= i < |sv.repositorio.tareas| ==>
      res.0.repositorio.tareas[i] ==
        if EsPrimera(sv.repositorio.tareas, id, i)
        then sv.repositorio.tareas[i].(completada := true)
        else sv.repositorio.tareas[i]
    ensures Valido(sv.repositorio) ==> Valido(res.0.repositorio)
  {
    var ts := sv.repositorio.tareas;
    match BuscarIndice(ts, id)
    case None => (sv, false)
    case Some(k) =>
      var ts' := ts[k := ts[k].(completada := true)];
      assert forall i :: 0 <= i < |ts| ==> (EsPrimera(ts, id, i) <==> i == k);
      (sv.(repositorio := sv.repositorio.(tareas := ts')), true)
  }

  /** Total, completed and pending counts of the statistics report: the
      completed count is the number of stored positions holding a completed
      task, the pending count the number holding a pending one. */
  function ObtenerEstadisticas(sv: Servicio): (e: Estadisticas)
    ensures e.total == |sv.repositorio.tareas|
    ensures e.completadas == |set i | 0 <= i < |sv.repositorio.tareas| && sv.repositorio.tareas[i].completada|
    ensures e.pendientes == |set i | 0 <= i < |sv.repositorio.tareas| && !sv.repositorio.tareas[i].completada|
    ensures e.completadas + e.pendientes == e.total
  {
    ParticionVistas(sv);
    CuentaPorEstado(sv.repositorio.tareas);
    Estadisticas(Contar(sv.repositorio), |ListarCompletadas(sv)|, |ListarPendientes(sv)|)
  }

  /** The views are as long as the number of positions holding a task in
      the matching state. */
  lemma CuentaPorEstado(ts: seq<Tarea>)
    ensures |Filtrar(ts, Completada)| == |set i | 0 <= i < |ts| && ts[i].completada|
    ensures |Filtrar(ts, Pendiente)| == |set i | 0 <= i < |ts| && !ts[i].completada|
  {
    FiltrarCuenta(ts, Completada);
    assert Posiciones(ts, Completada) == set i | 0 <= i < |ts| && ts[i].completada;
    FiltrarCuenta(ts, Pendiente);
    assert Posiciones(ts, Pendiente) == set i | 0 <= i < |ts| && !ts[i].completada;
  }

  /** The pending and completed views split the store: no task is in both,
      together they hold every task exactly as often as the store does, and
      their lengths add up to the count. */
  lemma ParticionVistas(sv: Servicio)
    ensures forall t :: !(t in ListarPendientes(sv) && t in ListarCompletadas(sv))
    ensures multiset(ListarPendientes(sv)) + multiset(ListarCompletadas(sv)) == multiset(sv.repositorio.tareas)
    ensures |ListarPendientes(sv)| + |ListarCompletadas(sv)| == Contar(sv.repositorio)
    ensures forall t :: t in sv.repositorio.tareas <==> t in ListarPendientes(sv) || t in ListarCompletadas(sv)
  {
    var ts := sv.repositorio.tareas;
    var pendientes, completadas := ListarPendientes(sv), ListarCompletadas(sv);
    assert multiset(pendientes) + multiset(completadas) == multiset(ts) by {
      forall t
        ensures (multiset(pendientes) + multiset(completadas))[t] == multiset(ts)[t]
      {
      }
    }
    assert |multiset(pendientes) + multiset(completadas)| == |multiset(ts)|;
    forall t
      ensures t in ts <==> t in pendientes || t in completadas
    {
      assert t in ts <==> t in multiset(ts);
      assert t in pendientes <==> t in multiset(pendientes);
      assert t in completadas <==> t in multiset(completadas);
    }
  }

  /** Under the store invariant, marking a task completed touches exactly the
      task with that id. */
  lemma MarcarSoloEsaTarea(sv: Servicio, id: int)
    requires Valido(sv.repositorio)
    ensures forall i :: 0 <= i < |sv.repositorio.tareas| ==>
      MarcarComoCompletada(sv, id).0.repositorio.tareas[i] ==
        if sv.repositorio.tareas[i].id == id
        then sv.repositorio.tareas[i].(completada := true)
        else sv.repositorio.tareas[i]
  {
    var ts := sv.repositorio.tareas;
    forall i | 0 <= i < |ts| && ts[i].id == id
      ensures EsPrimera(ts, id, i)
    {
      CoincidenciaUnica(sv.repositorio, id, i);
    }
  }

  /** Marking the same id a second time reports the same answer and changes nothing. */
  lemma {:induction false} MarcarIdempotente(sv: Servicio, id: int)
    ensures MarcarComoCompletada(MarcarComoCompletada(sv, id).0, id) == MarcarComoCompletada(sv, id)
  {
    var (sv', encontrada) := MarcarComoCompletada(sv, id);
    var ts, ts' := sv.repositorio.tareas, sv'.repositorio.tareas;
    assert forall i :: 0 <= i < |ts| ==> ts'[i].id == ts[i].id;
    assert forall i :: 0 <= i < |ts| ==> (EsPrimera(ts', id, i) <==> EsPrimera(ts, id, i));
    var (sv'', encontrada') := MarcarComoCompletada(sv', id);
    assert sv''.repositorio.tareas == ts';
  }
}
