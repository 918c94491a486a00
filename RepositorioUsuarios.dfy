/** The user table behind `InterfazRepositorioUsuarios`. Its implementation is
    not part of this model: the operations below are the evident meaning of
    the interface (look a user up by id or by exact e-mail, insert, set the
    verification flag, apply an update, delete), over a table whose ids grow
    from 1. */
module RepositorioUsuarios {
  import opened Common

  datatype Usuario = Usuario(
    id: int,
    nombre: string,
    apellidoP: string,
    apellidoM: string,
    email: string,
    boleta: Option<string>,
    rol: string,
    verificacionEmail: bool)

  /** The sign-up form. */
  datatype UsuarioSignUp = UsuarioSignUp(nombre: string, apellidoP: string, apellidoM: string, email: string, boleta: Option<string>)

  /** The update form: every field may be left out. */
  datatype UsuarioUpdate = UsuarioUpdate(
    nombre: Option<string>,
    apellidoP: Option<string>,
    apellidoM: Option<string>,
    email: Option<string>,
    boleta: Option<string>,
    rol: Option<string>)

  function HasId(id: int): Usuario -> bool {
    (u: Usuario) => u.id == id
  }

  function OtherId(id: int): Usuario -> bool {
    (u: Usuario) => u.id != id
  }

  function HasEmail(email: string): Usuario -> bool {
    (u: Usuario) => u.email == email
  }

  /** `GetUsuarioById`. */
  function FindById(users: seq<Usuario>, id: int): (r: Option<Usuario>)
    ensures r.Some? ==> r.value in users && r.value.id == id
    ensures r.None? <==> forall i :: 0 <= i < |users| ==> users[i].id != id
  {
    FindFirst(users, HasId(id))
  }

  /** `GetUsuarioByEmail`: exact comparison. */
  function FindByEmail(users: seq<Usuario>, email: string): (r: Option<Usuario>)
    ensures r.Some? ==> r.value in users && r.value.email == email
    ensures r.None? <==> forall i :: 0 <= i < |users| ==> users[i].email != email
  {
    FindFirst(users, HasEmail(email))
  }

  /** A text field of the update form replaces the stored one when it is
      given and not empty. */
  function Pick(field: Option<string>, current: string): (r: string)
    ensures field.Some? && field.value != [] ==> r == field.value
    ensures field.None? || field.value == [] ==> r == current
  {
    if field.Some? && field.value != [] then field.value else current
  }

  /** The stored user after an update form was applied. */
  function Apply(u: Usuario, dto: UsuarioUpdate): (r: Usuario)
    ensures r.id == u.id && r.verificacionEmail == u.verificacionEmail
    ensures r.email == Pick(dto.email, u.email)
  {
    u.(nombre := Pick(dto.nombre, u.nombre),
       apellidoP := Pick(dto.apellidoP, u.apellidoP),
       apellidoM := Pick(dto.apellidoM, u.apellidoM),
       email := Pick(dto.email, u.email),
       boleta := if dto.boleta.Some? && dto.boleta.value != [] then dto.boleta else u.boleta,
       rol := Pick(dto.rol, u.rol))
  }

  predicate IncreasingIds(users: seq<Usuario>) {
    forall i, j :: 0 <= i < j < |users| ==> users[i].id < users[j].id
  }

  /** No two users share an e-mail. */
  predicate UniqueEmails(users: seq<Usuario>) {
    forall i, j :: 0 <= i < j < |users| ==> users[i].email != users[j].email
  }

  /** Removing the rows with an id keeps the ids increasing and below the
      counter, and leaves no row with that id. */
  lemma DeleteKeepsIds(users: seq<Usuario>, id: int, nextId: int)
    requires IncreasingIds(users)
    requires forall i :: 0 <= i < |users| ==> 1 <= users[i].id < nextId
    ensures IncreasingIds(Filter(users, OtherId(id)))
    ensures forall i :: 0 <= i < |Filter(users, OtherId(id))| ==> 1 <= Filter(users, OtherId(id))[i].id < nextId
    ensures FindById(Filter(users, OtherId(id)), id).None?
  {
    var kept := Filter(users, OtherId(id));
    FilterPairwise(users, OtherId(id), (a: Usuario, b: Usuario) => a.id < b.id);
    forall i | 0 <= i < |kept|
      ensures 1 <= kept[i].id < nextId && kept[i].id != id
    {
      assert kept[i] in kept;
    }
  }

  /** The table with its auto-increment counter. */
  class UsuarioStore {
    var users: seq<Usuario>
    var nextId: int

    ghost predicate Valid()
      reads this
    {
      && nextId >= 1
      && IncreasingIds(users)
      && forall i :: 0 <= i < |users| ==> 1 <= users[i].id < nextId
    }

    constructor()
      ensures Valid() && users == [] && nextId == 1
    {
      users := [];
      nextId := 1;
    }

    function GetUsuarioById(id: int): (r: Option<Usuario>)
      reads this
      ensures r == FindById(users, id)
    {
      FindById(users, id)
    }

    function GetUsuarioByEmail(email: string): (r: Option<Usuario>)
      reads this
      ensures r == FindByEmail(users, email)
    {
      FindByEmail(users, email)
    }

    /** `EmailVerificadoAsync`: the user exists and its flag is set. */
    function EmailVerificado(id: int): (verified: bool)
      reads this
      ensures verified <==> FindById(users, id).Some? && FindById(users, id).value.verificacionEmail
    {
      match FindById(users, id)
      case Some(u) => u.verificacionEmail
      case None => false
    }

    /** `CreateUsuario`: a new, unverified user with the given role; its id is
        returned. */
    method CreateUsuario(dto: UsuarioSignUp, rol: string) returns (id: int)
      requires Valid()
      modifies this
      ensures Valid()
      ensures id == old(nextId) && id >= 1 && nextId == old(nextId) + 1
      ensures users == old(users) + [Usuario(id, dto.nombre, dto.apellidoP, dto.apellidoM, dto.email, dto.boleta, rol, false)]
    {
      id := nextId;
      users := users + [Usuario(id, dto.nombre, dto.apellidoP, dto.apellidoM, dto.email, dto.boleta, rol, false)];
      nextId := nextId + 1;
    }

    /** `VerificacionEmailAsync`: sets the flag of the user with that id. */
    method VerificacionEmail(id: int, flag: bool) returns (updated: bool)
      requires Valid()
      modifies this
      ensures Valid() && nextId == old(nextId)
      ensures |users| == |old(users)|
      ensures forall i :: 0 <= i < |users| ==>
        users[i] == if old(users)[i].id == id then old(users)[i].(verificacionEmail := flag) else old(users)[i]
      ensures updated <==> FindById(old(users), id).Some?
    {
      updated := FindById(users, id).Some?;
      var before := users;
      users := seq(|before|, i requires 0 <= i < |before| =>
        if before[i].id == id then before[i].(verificacionEmail := flag) else before[i]);
      assert forall i :: 0 <= i < |users| ==> users[i].id == before[i].id;
    }

    /** `UpdateUsuario`: applies the form to the user with that id; the
        answer says whether there was one. */
    method UpdateUsuario(id: int, dto: UsuarioUpdate) returns (updated: bool)
      requires Valid()
      modifies this
      ensures Valid() && nextId == old(nextId)
      ensures |users| == |old(users)|
      ensures forall i :: 0 <= i < |users| ==>
        users[i] == if old(users)[i].id == id then Apply(old(users)[i], dto) else old(users)[i]
      ensures updated <==> FindById(old(users), id).Some?
    {
      updated := FindById(users, id).Some?;
      var before := users;
      users := seq(|before|, i requires 0 <= i < |before| =>
        if before[i].id == id then Apply(before[i], dto) else before[i]);
      assert forall i :: 0 <= i < |users| ==> users[i].id == before[i].id;
    }

    /** `DeleteUsuario`: removes the user with that id; the answer says
        whether there was one. */
    method DeleteUsuario(id: int) returns (deleted: bool)
      requires Valid()
      modifies this
      ensures Valid() && nextId == old(nextId)
      ensures users == Filter(old(users), OtherId(id))
      ensures FindById(users, id).None?
      ensures deleted <==> FindById(old(users), id).Some?
    {
      deleted := FindById(users, id).Some?;
      DeleteKeepsIds(users, id, nextId);
      users := Filter(users, OtherId(id));
    }
  }
}
