/** The external author registry as seen by this service: a list of authors
    keyed by e-mail and a table linking a user id to an author id. Every call
    may fail; which way is a per-call `Fault` chosen by the environment:
    the call succeeds (`Up`), the registry answers with `Ok = false`
    (`Refused`), the client returns no response at all (`NullReply`), or the
    call throws (`Raises`). The HTTP client behind these calls is not part of
    this model; `CrearAutor` follows its visible client, which turns every
    exception into `Ok = false` but hands back whatever the body
    deserialises to, so a body reading `null` is a null reply. */
module AuthorRegistry {
  import opened Common

  datatype Fault = Up | Refused | NullReply | Raises

  /** What a registry call hands back: an exception, a null response, or a
      response with its `Ok` flag and the `Data.Id` it carries. */
  datatype Reply = Raised | Null | Response(ok: bool, id: int)

  datatype Author = Author(id: int, nombre: string, apellidoP: string, apellidoM: string, email: string)

  datatype Registry = Registry(authors: seq<Author>, links: map<int, int>, nextId: int)

  /** The state after a call together with its reply. */
  datatype Call = Call(reply: Reply, reg: Registry)

  /** The reply is a response whose `Ok` flag is set. */
  predicate IsOk(r: Reply) {
    r.Response? && r.ok
  }

  /** The first author registered with `email`. */
  function FindAuthor(authors: seq<Author>, email: string): (r: Option<Author>)
    ensures r.Some? ==> r.value in authors && r.value.email == email
    ensures r.None? <==> forall i :: 0 <= i < |authors| ==> authors[i].email != email
  {
    FindFirst(authors, (a: Author) => a.email == email)
  }

  /** `ObtenerAutor(email)`: the id of the author with that e-mail. */
  function ObtenerAutor(reg: Registry, email: string, f: Fault): (r: Reply)
    ensures IsOk(r) <==> f == Up && FindAuthor(reg.authors, email).Some?
    ensures IsOk(r) ==> r.id == FindAuthor(reg.authors, email).value.id
    ensures r == Null <==> f == NullReply
    ensures r == Raised <==> f == Raises
  {
    match f
    case Up => (match FindAuthor(reg.authors, email)
                case Some(a) => Response(true, a.id)
                case None => Response(false, 0))
    case Refused => Response(false, 0)
    case NullReply => Null
    case Raises => Raised
  }

  /** `CrearAutor(autor)`: registers a new author under the registry's next
      id. The client catches every exception and reports it as `Ok = false`,
      so this call never throws; a body that reads `null` is handed back as
      a null reply. */
  function CrearAutor(reg: Registry, nombre: string, apellidoP: string, apellidoM: string, email: string, f: Fault): (c: Call)
    ensures c.reply != Raised
    ensures c.reply == Null <==> f == NullReply
    ensures IsOk(c.reply) <==> f == Up
    ensures IsOk(c.reply) ==>
      c.reg.authors == reg.authors + [Author(reg.nextId, nombre, apellidoP, apellidoM, email)]
      && c.reply.id == reg.nextId && c.reg.links == reg.links
    ensures !IsOk(c.reply) ==> c.reg == reg
  {
    match f
    case Up =>
      Call(Response(true, reg.nextId),
           reg.(authors := reg.authors + [Author(reg.nextId, nombre, apellidoP, apellidoM, email)],
                nextId := reg.nextId + 1))
    case NullReply => Call(Null, reg)
    case _ => Call(Response(false, 0), reg)
  }

  /** `CrearRelacion(usuarioId, autorId)`: links the user to the author. */
  function CrearRelacion(reg: Registry, usuarioId: int, autorId: int, f: Fault): (c: Call)
    ensures IsOk(c.reply) <==> f == Up
    ensures IsOk(c.reply) ==> c.reg == reg.(links := reg.links[usuarioId := autorId])
    ensures !IsOk(c.reply) ==> c.reg == reg
  {
    match f
    case Up => Call(Response(true, autorId), reg.(links := reg.links[usuarioId := autorId]))
    case Refused => Call(Response(false, 0), reg)
    case NullReply => Call(Null, reg)
    case Raises => Call(Raised, reg)
  }

  /** `GetRelacion(usuarioId)`: the author the user is linked to. */
  function GetRelacion(reg: Registry, usuarioId: int, f: Fault): (r: Reply)
    ensures IsOk(r) <==> f == Up && usuarioId in reg.links
    ensures IsOk(r) ==> r.id == reg.links[usuarioId]
    ensures r == Null <==> f == NullReply
    ensures r == Raised <==> f == Raises
  {
    match f
    case Up => if usuarioId in reg.links then Response(true, reg.links[usuarioId]) else Response(false, 0)
    case Refused => Response(false, 0)
    case NullReply => Null
    case Raises => Raised
  }

  /** `EliminarRelacion(usuarioId, autorId)`: removes that link. */
  function EliminarRelacion(reg: Registry, usuarioId: int, autorId: int, f: Fault): (c: Call)
    ensures IsOk(c.reply) <==> f == Up
    ensures IsOk(c.reply) && usuarioId in reg.links && reg.links[usuarioId] == autorId ==>
      c.reg == reg.(links := reg.links - {usuarioId})
    ensures !IsOk(c.reply) ==> c.reg == reg
  {
    match f
    case Up =>
      var links := if usuarioId in reg.links && reg.links[usuarioId] == autorId then reg.links - {usuarioId} else reg.links;
      Call(Response(true, autorId), reg.(links := links))
    case Refused => Call(Response(false, 0), reg)
    case NullReply => Call(Null, reg)
    case Raises => Call(Raised, reg)
  }
}
