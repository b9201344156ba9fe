/** The task record and its priority, as plain immutable values. */
module TareaModel {

  /** Priority levels of a task. */
  datatype Prioridad = Alta | Media | Baja

  /** A task: store-assigned identity, text, completion flag and priority. */
  datatype Tarea = Tarea(id: nat, descripcion: string, completada: bool, prioridad: Prioridad)

  /** The filter used by the pending view. */
  predicate Pendiente(t: Tarea) {
    !t.completada
  }

  /** The filter used by the completed view. */
  predicate Completada(t: Tarea) {
    t.completada
  }
}
