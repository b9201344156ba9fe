# Task subsystem of the `tareas` application, modelled in Dafny

The `tareas` application keeps a to-do list in memory. A repository
(`TareaRepository`) holds an ordered list of tasks (`Tarea`: id,
description, completion flag, priority `ALTA`/`MEDIA`/`BAJA`) and a counter
that hands out ids, starting at 1 and never going back. The repository
seeds five example tasks when it is built. It can save a task (stamping the
next id), return a copy of the list, find a task by id, remove the tasks
carrying an id and count the tasks. A service (`TareaService`) adds the
business rules on top:

- a configured ceiling `maxTareas` that refuses new tasks once the store is full;
- a pending view and a completed view of the list;
- marking a task as completed;
- the three counts printed by the statistics report.

The model is functional. A task is an immutable `datatype`. The store is a
value `Repositorio(tareas: seq<Tarea>, contador: nat)`. The service is a
value `Servicio(repositorio, maxTareas)`. Every operation is a pure function
from a state to the next state and its result. The Java exception
`IllegalStateException` becomes `Failure(LimiteAlcanzado(maxTareas))` in a
`Result`, and `Optional<Tarea>` becomes `Option<Tarea>`. The module
`TareaHistorial` strings operations into runs. It states what holds across
calls:

- the store invariant: ids are unique, at least 1 and below the counter;
- the capacity rule;
- ids are never handed out twice, even after a delete.

Files:

- `wrappers.dfy`: `Option` and `Result`.
- `secuencias.dfy`: the order-preserving filter shared by `removeIf` and the
  two views, the subsequence relation, and their lemmas.
- `tarea.dfy`: `Tarea`, `Prioridad` and the two view predicates.
- `repositorio.dfy`: the store and its operations.
- `servicio.dfy`: the service and its operations.
- `historial.dfy`: runs of operations and the properties that span several calls.

Two points about the code that a reader might expect otherwise:

- `agregarTarea` (src/main/java/com/utn/tareas/service/TareaService.java:43-62)
  never checks the description, so the model accepts any string, including
  the empty one.
- The comment at src/main/java/com/utn/tareas/repository/TareaRepository.java:65
  says the copy prevents outside changes. The copy is shallow: the list is
  new, but its elements are the stored objects (see Left out).

## Model

| member | source | states |
|---|---|---|
| `TareaRepository.Inicial` | src/main/java/com/utn/tareas/repository/TareaRepository.java:24-45 | The constructor leaves five tasks with ids 1 to 5 and the counter at 6. Tasks 4 and 5 are completed, tasks 1 to 3 are pending, and the store invariant holds. |
| `TareaRepository.Guardar` | src/main/java/com/utn/tareas/repository/TareaRepository.java:52-57 | The saved task gets the old counter value as its id and keeps the caller's description, flag and priority. It is appended after the unchanged existing entries and the counter goes up by one. The invariant is kept, and the new id is larger than every stored id. |
| `TareaRepository.ObtenerTodas` | src/main/java/com/utn/tareas/repository/TareaRepository.java:63-66 | The copy built element by element equals the stored list, in insertion order. |
| `TareaRepository.BuscarIndice` | src/main/java/com/utn/tareas/repository/TareaRepository.java:73-78 | Returns no position exactly when no task has the id. Otherwise it returns the position of the first task with that id. |
| `TareaRepository.BuscarPorId` | src/main/java/com/utn/tareas/repository/TareaRepository.java:73-78 | Returns empty exactly when no stored task has the id. Otherwise it returns a stored task with that id, and no earlier task has it. |
| `TareaRepository.CoincidenciaUnica` | src/main/java/com/utn/tareas/repository/TareaRepository.java:73-78 | Under the store invariant, any task carrying the id is the first match and is the one the lookup returns. |
| `TareaRepository.EliminarPorId` | src/main/java/com/utn/tareas/repository/TareaRepository.java:85-94 | Returns true exactly when some task had the id. Afterwards no task has it. Every other task remains, as often as before and in the same relative order. The counter is unchanged. On false the store is unchanged. |
| `TareaRepository.Contar` | src/main/java/com/utn/tareas/repository/TareaRepository.java:100-102 | Under the store invariant the count stays below the counter: there are never more tasks than ids issued. |
| `TareaRepository.ContarIdsDistintos` | src/main/java/com/utn/tareas/repository/TareaRepository.java:52-57 | Under the store invariant, the number of stored tasks equals the number of distinct ids in use, and that is below the counter. |
| `TareaRepository.EliminarPreservaValido` | src/main/java/com/utn/tareas/repository/TareaRepository.java:85-94 | Removing by id keeps the store invariant. |
| `TareaRepository.EliminarQuitaUna` | src/main/java/com/utn/tareas/repository/TareaRepository.java:85-102 | Under the invariant, a successful removal lowers the count by exactly one. An unsuccessful one leaves the count unchanged. |
| `TareaRepository.EliminarDeshaceGuardar` | src/main/java/com/utn/tareas/repository/TareaRepository.java:52-94 | Removing the id a save has just issued returns true and restores the previous list. The counter stays advanced. |
| `TareaRepository.BuscarTrasGuardar` | src/main/java/com/utn/tareas/repository/TareaRepository.java:52-78 | After a save, a lookup by the issued id finds the saved task. Lookups by any other id give the same answer as before the save. |
| `TareaService.AgregarTarea` | src/main/java/com/utn/tareas/service/TareaService.java:43-62 | Fails exactly when the count is at least `maxTareas`, and then the state is unchanged. Otherwise it returns a pending task with the given description and priority and the old counter as its id. That task is appended, the counter goes up by one and the count stays at most `maxTareas`. The invariant is kept. |
| `TareaService.ListarTodas` | src/main/java/com/utn/tareas/service/TareaService.java:67-70 | Returns the stored tasks in insertion order. |
| `TareaService.ListarPendientes` | src/main/java/com/utn/tareas/service/TareaService.java:75-80 | Every returned task is pending. Each pending task appears as often as it does in the store, and nothing else appears. The result is an order-preserving subsequence of the store. |
| `TareaService.ListarCompletadas` | src/main/java/com/utn/tareas/service/TareaService.java:85-90 | Every returned task is completed. Each completed task appears as often as it does in the store, and nothing else appears. The result is an order-preserving subsequence of the store. |
| `Secuencias.FiltrarUnico` | src/main/java/com/utn/tareas/service/TareaService.java:75-90 | Any order-preserving subsequence that keeps exactly the passing elements, with their multiplicities, is the filter's result. So the two views' contracts determine them completely. |
| `Secuencias.Filtrar` | src/main/java/com/utn/tareas/service/TareaService.java:75-90 | The filter returns only elements that pass the predicate and is never longer than its input. |
| `TareaService.ParticionVistas` | src/main/java/com/utn/tareas/service/TareaService.java:75-118 | No task is in both the pending and the completed view. Together the two views hold every stored task with its multiplicity, a task is stored exactly when it is in one of them, and their lengths add up to the count. |
| `TareaService.ObtenerEstadisticas` | src/main/java/com/utn/tareas/service/TareaService.java:115-118 | The total is the number of stored tasks. The completed count is the number of stored positions holding a completed task, and the pending count the number holding a pending one; the two add up to the total. |
| `Secuencias.FiltrarCuenta` | src/main/java/com/utn/tareas/service/TareaService.java:75-90 | The length of a filtered view is the number of positions of the store whose task passes the filter. |
| `TareaService.MarcarComoCompletada` | src/main/java/com/utn/tareas/service/TareaService.java:97-109 | Returns true exactly when a task with the id exists. Only the task the lookup finds gets its flag set; every other task, every other field, the counter and the ceiling are unchanged. On false the state is unchanged. The invariant is kept. |
| `TareaService.MarcarSoloEsaTarea` | src/main/java/com/utn/tareas/service/TareaService.java:97-109 | Under the invariant, the task with the id is marked completed and every other task is left as it was. |
| `TareaService.MarcarIdempotente` | src/main/java/com/utn/tareas/service/TareaService.java:97-109 | Marking the same id again returns the same answer and leaves the state unchanged. |
| `TareaHistorial.ContadorMonotono` | src/main/java/com/utn/tareas/repository/TareaRepository.java:24-57 | No run of adds, deletes and completions ever moves the counter back. |
| `TareaHistorial.EjecutarPreservaValido` | src/main/java/com/utn/tareas/repository/TareaRepository.java:52-94 | Every run keeps the store invariant (unique ids, each at least 1 and below the counter) and leaves the ceiling unchanged. |
| `TareaHistorial.IdsNuncaReutilizados` | src/main/java/com/utn/tareas/repository/TareaRepository.java:24-57 | The ids a run hands out are strictly increasing. Each lies between the counter at the start of the run and the counter at its end, so an id is never issued twice. |
| `TareaHistorial.IdsNoPresentes` | src/main/java/com/utn/tareas/repository/TareaRepository.java:24-57 | No id handed out by a run equals the id of a task stored when the run began. |
| `TareaHistorial.AgregarHastaElLimite` | src/main/java/com/utn/tareas/service/TareaService.java:47-61 | Adds that stay within the ceiling all succeed, and each raises the count by one. Once the count reaches `maxTareas`, the next add fails and changes nothing. |
| `TareaHistorial.EliminarYAgregar` | src/main/java/com/utn/tareas/repository/TareaRepository.java:52-94 | When a delete is followed by an add below the ceiling, the add receives the counter value, whatever the delete freed. |
| `TareaHistorial.EscenarioSinReutilizacion` | src/main/java/com/utn/tareas/repository/TareaRepository.java:30-94 | In the seeded store, deleting task 5 removes it, and the next add receives id 6, not the freed 5. |

## Left out

- The product API (`ProductoController`, `ProductoRepository`, the DTOs, `Producto`): HTTP routing and ORM persistence handled by the framework. `ProductoService` is not part of this model.
- `GlobalExceptionHandler`, `OpenApiConfig`, `PruebaController`: translating exceptions into HTTP responses with a wall-clock timestamp, configuration, and a fixed-string endpoint.
- `MensajeService`, `MensajeDevService`, `MensajeProdService`: console banners selected by profile; pure I/O.
- Logging, `System.out` output, the formatted text of `obtenerEstadisticas`, `mostrarConfiguracion`, `nombreApp` and `debeMostrarEstadisticas`: output and configuration echoes. Only the three counts are modelled.
- Concurrency. The store's `ArrayList` is unsynchronised, and `agregarTarea` checks the count before inserting. The model is sequential, so the race between the two is not represented.
- Object aliasing. `guardar` stores, and stamps the id on, the caller's own object. `obtenerTodas` returns a new list of the same objects. Either way a caller could still change stored tasks. The model uses immutable values. The in-place update done by `marcarComoCompletada` through the reference `buscarPorId` returns is modelled as replacing the task at that position.
- `null`: a null id, description or priority. Ids are `nat` in the store and lookup arguments are `int`.
- `TareasApplicationTests`: it only exercises mocks of the service.
- `TareaRepository.Guardar`: the counter is an unbounded `nat`. Overflow of the Java `AtomicLong` after 2^63 - 1 saves is not modelled.
