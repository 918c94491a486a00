/** The direct author helpers: the classifier that decides which outbox event a
    role change calls for, and the lookup of the author a user is linked to. */
module AutorDirectService {
  import opened AuthorRegistry

  const CrearAutorEvent := "CREAR_AUTOR"
  const EliminarRelacionEvent := "ELIMINAR_RELACION"
  const SinCambios := "SIN_CAMBIOS"

  /** Roles "2" and "3" are the ones linked to an author. */
  predicate EsRolAutor(rol: string) {
    rol == "2" || rol == "3"
  }

  /** `DeterminarTipoEventoActualizacion`: a role change that gains an author
      link creates the author, one that loses it removes the link, and every
      other change needs nothing. */
  function DeterminarTipoEventoActualizacion(rolAnterior: string, rolNuevo: string): (r: string)
    ensures r == CrearAutorEvent <==> !EsRolAutor(rolAnterior) && EsRolAutor(rolNuevo)
    ensures r == EliminarRelacionEvent <==> EsRolAutor(rolAnterior) && !EsRolAutor(rolNuevo)
    ensures r == SinCambios <==> (EsRolAutor(rolAnterior) <==> EsRolAutor(rolNuevo))
  {
    match (EsRolAutor(rolAnterior), EsRolAutor(rolNuevo))
    case (false, true) => CrearAutorEvent
    case (true, false) => EliminarRelacionEvent
    case (true, true) => SinCambios
    case _ => SinCambios
  }

  /** The classifier only ever answers one of its three event names; equal
      roles and a move between "2" and "3" need nothing. */
  lemma ClassifierRange(rolAnterior: string, rolNuevo: string)
    ensures DeterminarTipoEventoActualizacion(rolAnterior, rolNuevo) in {CrearAutorEvent, EliminarRelacionEvent, SinCambios}
    ensures DeterminarTipoEventoActualizacion(rolAnterior, rolAnterior) == SinCambios
    ensures DeterminarTipoEventoActualizacion("2", "3") == SinCambios
    ensures DeterminarTipoEventoActualizacion("3", "2") == SinCambios
  {
  }

  /** Undoing a role change undoes the event: swapping the two roles swaps
      author creation with link removal. */
  lemma SwapRoles(rolAnterior: string, rolNuevo: string)
    ensures DeterminarTipoEventoActualizacion(rolAnterior, rolNuevo) == CrearAutorEvent
        <==> DeterminarTipoEventoActualizacion(rolNuevo, rolAnterior) == EliminarRelacionEvent
    ensures DeterminarTipoEventoActualizacion(rolAnterior, rolNuevo) == SinCambios
        <==> DeterminarTipoEventoActualizacion(rolNuevo, rolAnterior) == SinCambios
  {
  }

  /** `ObtenerAutorIdAsync`: the id of the author linked to the user when the
      registry answers `Ok`, and 0 on a refusal, a null response or an
      exception. */
  function ObtenerAutorId(reg: Registry, usuarioId: int, f: Fault): (id: int)
    ensures f == Up && usuarioId in reg.links ==> id == reg.links[usuarioId]
    ensures f != Up || usuarioId !in reg.links ==> id == 0
  {
    var r := GetRelacion(reg, usuarioId, f);
    if IsOk(r) then r.id else 0
  }
}
