/** One pass of the outbox dispatcher: fetch the pending batch, hand each event
    to the handler for its type, mark it processed when the handler returns
    and count a retry when it throws. The registry is a value threaded through
    the pass; `parse` stands for the JSON reader of the payload and
    `faults(i)` for how the registry calls of the i-th event of the batch
    turn out. */
module AutorBackgroundService {
  import opened Common
  import opened AuthorRegistry
  import opened RepositorioOutbox
  import AutorDirectService

  datatype UsuarioEventData = UsuarioEventData(
    usuarioId: int,
    email: string,
    nombre: string,
    apellidoP: string,
    apellidoM: string,
    rolAnterior: string,
    rolNuevo: string)

  /** The payload read back: unreadable JSON (the reader throws), the JSON
      literal `null`, or an object. */
  datatype Parsed = Malformed | NullPayload | Payload(data: UsuarioEventData)

  /** How the registry calls of one event turn out: the lookup (`ObtenerAutor`
      or `GetRelacion`), the author creation, and the link update
      (`CrearRelacion` or `EliminarRelacion`). */
  datatype CallFaults = CallFaults(lookup: Fault, create: Fault, link: Fault)

  const AllUp := CallFaults(Up, Up, Up)

  /** A handler either returns or throws; either way the registry may have
      changed already. */
  datatype Outcome = Returned(reg: Registry) | Threw(reg: Registry)

  /** The user is linked to an author registered with its e-mail. */
  predicate LinkedToAuthor(reg: Registry, usuarioId: int, email: string) {
    usuarioId in reg.links
    && exists a :: a in reg.authors && a.email == email && a.id == reg.links[usuarioId]
  }

  /** `CrearRelacion` followed by the `Ok` test: a refused, null or failed
      call throws. */
  function Vincular(reg: Registry, usuarioId: int, autorId: int, f: Fault): (o: Outcome)
    ensures o.Returned? <==> f == Up
    ensures o.Returned? ==> o.reg == reg.(links := reg.links[usuarioId := autorId])
    ensures o.Threw? ==> o.reg == reg
  {
    var c := CrearRelacion(reg, usuarioId, autorId, f);
    if IsOk(c.reply) then Returned(c.reg) else Threw(c.reg)
  }

  /** `ProcesarCrearAutor`: find the author by e-mail, create it when the
      lookup does not answer `Ok`, then link the user to it. */
  function ProcesarCrearAutor(reg: Registry, d: UsuarioEventData, f: CallFaults): (o: Outcome)
    ensures f.lookup == Up && FindAuthor(reg.authors, d.email).Some? ==> o.reg.authors == reg.authors
    ensures o.reg.authors == reg.authors
         || o.reg.authors == reg.authors + [Author(reg.nextId, d.nombre, d.apellidoP, d.apellidoM, d.email)]
    ensures o.Returned? ==> LinkedToAuthor(o.reg, d.usuarioId, d.email)
    ensures o.Returned? <==>
      (f.lookup != Raises && f.link == Up && ((f.lookup == Up && FindAuthor(reg.authors, d.email).Some?) || f.create == Up))
  {
    var found := ObtenerAutor(reg, d.email, f.lookup);
    if found == Raised then Threw(reg)
    else if IsOk(found) then Vincular(reg, d.usuarioId, found.id, f.link)
    else
      var created := CrearAutor(reg, d.nombre, d.apellidoP, d.apellidoM, d.email, f.create);
      if IsOk(created.reply) then
        assert created.reg.authors[|reg.authors|].email == d.email;
        Vincular(created.reg, d.usuarioId, created.reply.id, f.link)
      else Threw(created.reg)
  }

  /** `ProcesarEliminarRelacion`: look the link up and remove it; no link is
      nothing to do, a failed removal or a null response throws. */
  function ProcesarEliminarRelacion(reg: Registry, d: UsuarioEventData, f: CallFaults): (o: Outcome)
    ensures o.reg.authors == reg.authors
    ensures o.Returned? ==> d.usuarioId !in o.reg.links || f.lookup == Refused
    ensures f.lookup == Up && d.usuarioId !in reg.links ==> o == Returned(reg)
    ensures f.lookup == Up && d.usuarioId in reg.links ==>
      o == (if f.link == Up then Returned(reg.(links := reg.links - {d.usuarioId})) else Threw(reg))
    ensures f.lookup == Refused ==> o == Returned(reg)
    ensures f.lookup == NullReply || f.lookup == Raises ==> o == Threw(reg)
  {
    var g := GetRelacion(reg, d.usuarioId, f.lookup);
    if !g.Response? then Threw(reg)
    else if !g.ok then Returned(reg)
    else
      var e := EliminarRelacion(reg, d.usuarioId, g.id, f.link);
      if IsOk(e.reply) then Returned(e.reg) else Threw(e.reg)
  }

  /** `ProcesarEvento`: a null payload and an unknown type are done with; an
      unreadable payload throws before any handler runs. */
  function ProcesarEvento(reg: Registry, evento: OutboxEvent, payload: Parsed, f: CallFaults): (o: Outcome)
    ensures payload.NullPayload? ==> o == Returned(reg)
    ensures payload.Malformed? ==> o == Threw(reg)
    ensures payload.Payload? && evento.eventType == AutorDirectService.CrearAutorEvent ==>
      o == ProcesarCrearAutor(reg, payload.data, f)
    ensures payload.Payload? && evento.eventType == AutorDirectService.EliminarRelacionEvent ==>
      o == ProcesarEliminarRelacion(reg, payload.data, f)
    ensures (evento.eventType != AutorDirectService.CrearAutorEvent
             && evento.eventType != AutorDirectService.EliminarRelacionEvent && !payload.Malformed?) ==> o == Returned(reg)
  {
    match payload
    case Malformed => Threw(reg)
    case NullPayload => Returned(reg)
    case Payload(d) =>
      if evento.eventType == AutorDirectService.CrearAutorEvent then ProcesarCrearAutor(reg, d, f)
      else if evento.eventType == AutorDirectService.EliminarRelacionEvent then ProcesarEliminarRelacion(reg, d, f)
      else Returned(reg)
  }

  /** The handler run on the i-th event of a batch, inside the per-event
      catch: it throws or returns, and only a creation event can add an
      author, the one it carries. */
  function Handle(reg: Registry, evento: OutboxEvent, parse: string -> Parsed, faults: nat -> CallFaults, i: nat): (o: Outcome)
    ensures parse(evento.eventData).Malformed? ==> o == Threw(reg)
    ensures o.reg.authors == reg.authors
         || (&& evento.eventType == AutorDirectService.CrearAutorEvent
             && parse(evento.eventData).Payload?
             && var d := parse(evento.eventData).data;
                o.reg.authors == reg.authors + [Author(reg.nextId, d.nombre, d.apellidoP, d.apellidoM, d.email)])
    ensures (evento.eventType != AutorDirectService.CrearAutorEvent
             && evento.eventType != AutorDirectService.EliminarRelacionEvent) ==> o.reg == reg
  {
    ProcesarEvento(reg, evento, parse(evento.eventData), faults(i))
  }

  /** The registry after the handlers of the whole batch ran in order. */
  function RegistryAfter(reg: Registry, batch: seq<OutboxEvent>, parse: string -> Parsed, faults: nat -> CallFaults): Registry
    decreases |batch|
  {
    if batch == [] then reg
    else Handle(RegistryAfter(reg, batch[..|batch| - 1], parse, faults), batch[|batch| - 1], parse, faults, |batch| - 1).reg
  }

  /** Whether the handler of the i-th event threw, given what the earlier
      events did to the registry. */
  function EventThrew(reg: Registry, batch: seq<OutboxEvent>, parse: string -> Parsed, faults: nat -> CallFaults, i: nat): bool
    requires i < |batch|
  {
    Handle(RegistryAfter(reg, batch[..i], parse, faults), batch[i], parse, faults, i).Threw?
  }

  /** The outbox row after its event was handled. */
  function Updated(row: OutboxEvent, threw: bool): OutboxEvent {
    if threw then row.(retryCount := row.retryCount + 1) else row.(processed := true)
  }

  /** The table write that follows one handler. */
  function Updates(rows: seq<OutboxEvent>, id: int, threw: bool): seq<OutboxEvent> {
    if threw then IncrementRetry(rows, id) else MarkProcessed(rows, id)
  }

  /** The outbox table after the batch: each event in turn is marked processed
      or has its retry count raised. */
  function RowsAfter(rows: seq<OutboxEvent>, reg: Registry, batch: seq<OutboxEvent>, parse: string -> Parsed, faults: nat -> CallFaults): (r: seq<OutboxEvent>)
    ensures |r| == |rows|
    decreases |batch|
  {
    if batch == [] then rows
    else
      var n := |batch| - 1;
      var prev := RowsAfter(rows, reg, batch[..n], parse, faults);
      Updates(prev, batch[n].id, EventThrew(reg, batch, parse, faults, n))
  }

  /** In one pass every fetched event receives exactly one update, processed
      when its handler returned and one more retry when it threw, and every
      row outside the batch is left as it was. */
  lemma {:induction false} RowsAfterSpec(rows: seq<OutboxEvent>, reg: Registry, batch: seq<OutboxEvent>,
                                         parse: string -> Parsed, faults: nat -> CallFaults, k: int)
    requires UniqueIds(batch) && 0 <= k < |rows|
    ensures (forall i :: 0 <= i < |batch| ==> batch[i].id != rows[k].id) ==>
      RowsAfter(rows, reg, batch, parse, faults)[k] == rows[k]
    ensures forall i :: 0 <= i < |batch| && batch[i].id == rows[k].id ==>
      RowsAfter(rows, reg, batch, parse, faults)[k] == Updated(rows[k], EventThrew(reg, batch, parse, faults, i))
    decreases |batch|
  {
    if batch != [] {
      var n := |batch| - 1;
      var init := batch[..n];
      var last := batch[n];
      assert UniqueIds(init) by {
        forall i, j | 0 <= i < j < n
          ensures init[i].id != init[j].id
        {
          assert init[i] == batch[i] && init[j] == batch[j];
        }
      }
      RowsAfterSpec(rows, reg, init, parse, faults, k);
      RowsAfterLast(rows, reg, batch, parse, faults, k);
      var prev := RowsAfter(rows, reg, init, parse, faults);
      if i :| 0 <= i < n && init[i].id == rows[k].id {
        assert prev[k] == Updated(rows[k], EventThrew(reg, init, parse, faults, i));
      }
      if rows[k].id == last.id {
        assert forall i :: 0 <= i < n ==> init[i].id != rows[k].id by {
          forall i | 0 <= i < n
            ensures init[i].id != rows[k].id
          {
            assert init[i] == batch[i];
          }
        }
      } else {
        forall i | 0 <= i < n
          ensures EventThrew(reg, init, parse, faults, i) == EventThrew(reg, batch, parse, faults, i)
        {
          EventThrewPrefix(reg, batch, parse, faults, n, i);
        }
      }
    }
  }

  /** The last event of a batch updates, at each row, what the earlier events
      left there, and only if the row carries its id. */
  lemma RowsAfterLast(rows: seq<OutboxEvent>, reg: Registry, batch: seq<OutboxEvent>,
                      parse: string -> Parsed, faults: nat -> CallFaults, k: int)
    requires batch != [] && 0 <= k < |rows|
    ensures var n := |batch| - 1;
      var prev := RowsAfter(rows, reg, batch[..n], parse, faults);
      RowsAfter(rows, reg, batch, parse, faults)[k]
        == if prev[k].id == batch[n].id then Updated(prev[k], EventThrew(reg, batch, parse, faults, n)) else prev[k]
  {
    var n := |batch| - 1;
    var prev := RowsAfter(rows, reg, batch[..n], parse, faults);
    MarkProcessedSpec(prev, batch[n].id);
    IncrementRetrySpec(prev, batch[n].id);
  }

  /** What an event's handler does depends only on the events before it. */
  lemma EventThrewPrefix(reg: Registry, batch: seq<OutboxEvent>, parse: string -> Parsed, faults: nat -> CallFaults, m: nat, i: nat)
    requires i < m <= |batch|
    ensures EventThrew(reg, batch[..m], parse, faults, i) == EventThrew(reg, batch, parse, faults, i)
  {
    assert batch[..m][..i] == batch[..i];
  }

  /** An event whose payload reads as null, or whose type no handler knows, is
      marked processed and never retried. */
  lemma NullOrUnknownIsProcessed(reg: Registry, batch: seq<OutboxEvent>, parse: string -> Parsed, faults: nat -> CallFaults, i: nat)
    requires i < |batch|
    requires parse(batch[i].eventData).NullPayload?
          || (!parse(batch[i].eventData).Malformed?
              && batch[i].eventType != AutorDirectService.CrearAutorEvent
              && batch[i].eventType != AutorDirectService.EliminarRelacionEvent)
    ensures !EventThrew(reg, batch, parse, faults, i)
  {
  }

  /** A retry after "author created, link failed" finds the author it created
      and creates no second one. */
  lemma RetryCreatesNoDuplicate(reg: Registry, d: UsuarioEventData, f1: CallFaults, f2: CallFaults)
    requires f1.lookup != Raises && f1.create == Up && f1.link != Up
    requires FindAuthor(reg.authors, d.email).None?
    requires f2.lookup == Up
    ensures ProcesarCrearAutor(reg, d, f1).Threw?
    ensures |ProcesarCrearAutor(reg, d, f1).reg.authors| == |reg.authors| + 1
    ensures ProcesarCrearAutor(ProcesarCrearAutor(reg, d, f1).reg, d, f2).reg.authors
         == ProcesarCrearAutor(reg, d, f1).reg.authors
  {
    var reg1 := ProcesarCrearAutor(reg, d, f1).reg;
    assert reg1.authors[|reg.authors|] in reg1.authors;
  }

  /** With every call up, handling the same creation event twice is handling it
      once: the second run finds the author and relinks the same id. */
  lemma CrearAutorIdempotent(reg: Registry, d: UsuarioEventData)
    ensures ProcesarCrearAutor(reg, d, AllUp).Returned?
    ensures ProcesarCrearAutor(ProcesarCrearAutor(reg, d, AllUp).reg, d, AllUp)
         == ProcesarCrearAutor(reg, d, AllUp)
  {
    var reg1 := ProcesarCrearAutor(reg, d, AllUp).reg;
    if FindAuthor(reg.authors, d.email).None? {
      var a := reg1.authors[|reg.authors|];
      assert a in reg1.authors;
      assert FindAuthor(reg1.authors, d.email) == Some(a) by {
        FindFirstSnoc(reg.authors, a, (x: Author) => x.email == d.email);
      }
    }
  }

  /** With every call up, handling the same removal event twice is handling
      it once: afterwards the user has no link. */
  lemma EliminarRelacionIdempotent(reg: Registry, d: UsuarioEventData)
    ensures ProcesarEliminarRelacion(reg, d, AllUp).Returned?
    ensures d.usuarioId !in ProcesarEliminarRelacion(reg, d, AllUp).reg.links
    ensures ProcesarEliminarRelacion(ProcesarEliminarRelacion(reg, d, AllUp).reg, d, AllUp)
         == ProcesarEliminarRelacion(reg, d, AllUp)
  {
  }

  /** Handling one more event of the batch extends the registry and the
      table by that event's handler. */
  lemma AfterStep(rows: seq<OutboxEvent>, reg: Registry, batch: seq<OutboxEvent>,
                  parse: string -> Parsed, faults: nat -> CallFaults, i: nat)
    requires i < |batch|
    ensures var o := Handle(RegistryAfter(reg, batch[..i], parse, faults), batch[i], parse, faults, i);
      && RegistryAfter(reg, batch[..i + 1], parse, faults) == o.reg
      && RowsAfter(rows, reg, batch[..i + 1], parse, faults)
         == Updates(RowsAfter(rows, reg, batch[..i], parse, faults), batch[i].id, o.Threw?)
  {
    assert batch[..i + 1][..i] == batch[..i];
  }

  /** The bookkeeping after one handler: mark the row processed when the
      handler returned, count one more retry when it threw. */
  method Despachar(outbox: OutboxStore, id: int, threw: bool)
    requires outbox.Valid()
    modifies outbox
    ensures outbox.Valid()
    ensures outbox.rows == Updates(old(outbox.rows), id, threw)
  {
    if threw {
      outbox.IncrementRetryCount(id);
    } else {
      outbox.MarkAsProcessed(id);
    }
  }

  /** `ProcesarEventosPendientes`: one pass over the pending batch. */
  method ProcesarEventosPendientes(outbox: OutboxStore, reg: Registry, parse: string -> Parsed, faults: nat -> CallFaults)
    returns (batch: seq<OutboxEvent>, regOut: Registry)
    requires outbox.Valid()
    modifies outbox
    ensures outbox.Valid()
    ensures batch == PendingBatch(old(outbox.rows)) && UniqueIds(batch)
    ensures outbox.rows == RowsAfter(old(outbox.rows), reg, batch, parse, faults)
    ensures regOut == RegistryAfter(reg, batch, parse, faults)
  {
    batch := outbox.GetPendingEvents();
    BatchUniqueIds(outbox.rows);
    ghost var rows0 := outbox.rows;
    regOut := reg;
    var i := 0;
    while i < |batch|
      invariant 0 <= i <= |batch|
      invariant outbox.Valid()
      invariant outbox.rows == RowsAfter(rows0, reg, batch[..i], parse, faults)
      invariant regOut == RegistryAfter(reg, batch[..i], parse, faults)
    {
      var evento := batch[i];
      var outcome := ProcesarEvento(regOut, evento, parse(evento.eventData), faults(i));
      AfterStep(rows0, reg, batch, parse, faults, i);
      Despachar(outbox, evento.id, outcome.Threw?);
      regOut := outcome.reg;
      i := i + 1;
    }
    assert batch[..|batch|] == batch;
  }
}
