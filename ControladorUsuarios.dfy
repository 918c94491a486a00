/** The user controller: sign-up, sign-in, e-mail verification by code, and
    the guards of update and delete. It works on the user table, the code
    table and the mail sender; the author registry is a value passed in and
    handed back, and the outcome of each registry call is a parameter. The
    code service is not part of this model: the fresh code, its expiry instant,
    the signed access token and its expiry are parameters, and expiry is the
    strict test of `TokenService.IsTokenExpired`. */
module ControladorUsuarios {
  import opened Common
  import opened Text
  import opened Respuestas
  import opened AuthorRegistry
  import opened RepositorioUsuarios
  import opened RepositorioLoginTokens
  import opened EmailService
  import opened AutorBackgroundService
  import TokenService

  const RolInicial := "1"
  const RolAutor := "2"
  /** Sign-up links an author only for addresses containing this. */
  const StaffMarker := "@ipn.mx"

  const SubjectVerificacion := "Acceso a prototipo de Repositorio Digital ESCOM"
  const SubjectConfirmar := "Confirmar inicio de sesión - Repositorio Digital ESCOM"

  const InvalidData := "Datos inválidos"
  const DuplicateEmail := "Ya existe un usuario con este email"
  const ResentMessage := "Se ha reenviado un código de verificación a tu correo electrónico"
  const SentMessage := "Se ha enviado un código de verificación a tu correo electrónico"
  const NullReplyMessage := "La respuesta fue nula"
  const CreateAuthorFailed := "Error al crear el autor en el sistema externo"
  const LinkFailed := "Error al crear la relación entre el usuario y el autor en el sistema externo"
  const InternalError := "Error interno del servidor."
  const WrongEmail := "Email incorrecto"
  const NotVerified := "Tu cuenta no ha sido verificada. Por favor, verifica tu correo electrónico antes de iniciar sesión."
  const RelationErrorPrefix := "Error al obtener la relación del ID "
  const InvalidCode := "Código inválido o usuario no especificado"
  const UserNotFound := "Usuario no encontrado"
  const CodeNotFound := "Código no encontrado o ya utilizado"
  const WrongOwner := "El código no corresponde a este usuario"
  const CodeExpired := "El código ha expirado. Solicita un nuevo código de verificación."
  const UpdatedMessage := "Usuario actualizado exitosamente"
  const UpdateFailed := "Error al actualizar el usuario"
  const DeletedMessage := "Usuario eliminado exitosamente"
  const DeleteFailed := "Error al eliminar el usuario"

  datatype Status = Ok | BadRequest | Unauthorized | NotFound | Conflict | ServerError

  /** The anonymous objects the actions put in the envelope. */
  datatype Payload =
    | Registered(id: int, autorId: int)
    | Resent(id: int)
    | Session(id: int, autorId: int, accessToken: string, expiresAt: int)
    | Access(accessToken: string, expiresAt: int)

  /** The envelope is either the generic one or the payload-free one. */
  datatype Body = Typed(typed: Respuesta<Payload>) | Untyped(untyped: RespuestaSimple)

  datatype ActionResult = ActionResult(status: Status, body: Body)

  /** A failure with a message and no error list. */
  function Fail(status: Status, message: string): ActionResult {
    ActionResult(status, Untyped(SimpleFailure(message, None)))
  }

  /** The catch-all: status 500 with the exception's message as the only
      error. */
  function Crash(excepcion: string): ActionResult {
    ActionResult(ServerError, Untyped(SimpleFailure(InternalError, Some([excepcion]))))
  }

  function Succeed(p: Payload, message: Option<string>): ActionResult {
    ActionResult(Ok, Typed(Success(p, message)))
  }

  /** `int.ToString()`. */
  function IntToString(n: int): string {
    if n < 0 then "-" + NatToString(-n) else NatToString(n)
  }

  // ---------------------------------------------------------------------
  // Code formatting

  /** The code as the mail shows it: a six-character code gets a dash in the
      middle, any other code is shown as it is. */
  function FormatCode(codigo: string): (shown: string)
    ensures |codigo| == 6 ==> |shown| == 7 && shown[3] == '-' && shown[..3] + shown[4..] == codigo
    ensures |codigo| != 6 ==> shown == codigo
  {
    if |codigo| == 6 then codigo[..3] + "-" + codigo[3..] else codigo
  }

  /** Formatting a shown code again changes nothing, so the resend path,
      which formats the code and hands it to a mail body that formats it
      once more, shows the same text as a first mail. */
  lemma FormatCodeIdempotent(codigo: string)
    ensures FormatCode(FormatCode(codigo)) == FormatCode(codigo)
    ensures |FormatCode(codigo)| != 6
  {
  }

  /** Codes of the same length are shown differently when they differ. (A
      seven-character code with a dash in the middle is shown exactly like
      the six-character code without it.) */
  lemma FormatCodeInjective(a: string, b: string)
    requires |a| == |b| && FormatCode(a) == FormatCode(b)
    ensures a == b
  {
    if |a| == 6 {
      assert a == FormatCode(a)[..3] + FormatCode(a)[4..];
    }
  }

  /** The remark above, on a witness. */
  lemma FormatCodeCollision()
    ensures FormatCode("abc-def") == FormatCode("abcdef")
  {
    assert "abcdef"[..3] + "-" + "abcdef"[3..] == "abc-def";
  }

  // ---------------------------------------------------------------------
  // The code table discipline

  /** No user holds two codes. */
  predicate AtMostOneCode(rows: seq<LoginToken>) {
    forall i, j :: 0 <= i < j < |rows| ==> rows[i].usuarioId != rows[j].usuarioId
  }

  /** The code table after the user's codes were removed and a fresh one
      inserted under the counter's id. */
  function Reissue(rows: seq<LoginToken>, nextId: int, usuarioId: int, codigo: string, expiracion: int, now: int): seq<LoginToken> {
    Filter(rows, NotOwnedBy(usuarioId)) + [LoginToken(nextId, usuarioId, codigo, expiracion, now)]
  }

  /** Reissuing leaves the user exactly the new code, leaves every other
      user's codes alone and keeps the at-most-one discipline. */
  lemma ReissueSpec(rows: seq<LoginToken>, nextId: int, usuarioId: int, codigo: string, expiracion: int, now: int)
    requires AtMostOneCode(rows)
    ensures AtMostOneCode(Reissue(rows, nextId, usuarioId, codigo, expiracion, now))
    ensures CodesOf(Reissue(rows, nextId, usuarioId, codigo, expiracion, now), usuarioId)
         == [LoginToken(nextId, usuarioId, codigo, expiracion, now)]
    ensures forall v :: v != usuarioId ==>
      CodesOf(Reissue(rows, nextId, usuarioId, codigo, expiracion, now), v) == CodesOf(rows, v)
  {
    var t := LoginToken(nextId, usuarioId, codigo, expiracion, now);
    ReplaceCodes(rows, t);
    ReissueKeepsOneCode(rows, t);
    forall v | v != usuarioId
      ensures CodesOf(Filter(rows, NotOwnedBy(usuarioId)) + [t], v) == CodesOf(rows, v)
    {
      ReissueOtherUser(rows, t, v);
    }
  }

  /** Appending a code for a user whose codes were all removed keeps the
      at-most-one discipline. */
  lemma ReissueKeepsOneCode(rows: seq<LoginToken>, t: LoginToken)
    requires AtMostOneCode(rows)
    ensures AtMostOneCode(Filter(rows, NotOwnedBy(t.usuarioId)) + [t])
  {
    var kept := Filter(rows, NotOwnedBy(t.usuarioId));
    DeleteKeepsOneCode(rows, NotOwnedBy(t.usuarioId));
    forall i | 0 <= i < |kept|
      ensures kept[i].usuarioId != t.usuarioId
    {
      assert kept[i] in kept;
    }
  }

  /** Another user's codes are the same before and after a reissue. */
  lemma ReissueOtherUser(rows: seq<LoginToken>, t: LoginToken, v: int)
    requires v != t.usuarioId
    ensures CodesOf(Filter(rows, NotOwnedBy(t.usuarioId)) + [t], v) == CodesOf(rows, v)
  {
    FilterOfFilter(rows, t.usuarioId, v);
    FilterSnoc(Filter(rows, NotOwnedBy(t.usuarioId)), t, OwnedBy(v));
  }

  /** Removing codes keeps the at-most-one discipline. */
  lemma DeleteKeepsOneCode(rows: seq<LoginToken>, keep: LoginToken -> bool)
    requires AtMostOneCode(rows)
    ensures AtMostOneCode(Filter(rows, keep))
  {
    FilterPairwise(rows, keep, (a: LoginToken, b: LoginToken) => a.usuarioId != b.usuarioId);
  }

  /** With distinct ids, a member of the table is what a lookup by its id
      finds. */
  lemma FindByIdOfMember(users: seq<Usuario>, u: Usuario)
    requires RepositorioUsuarios.IncreasingIds(users) && u in users
    ensures FindById(users, u.id) == Some(u)
  {
    var r := FindById(users, u.id);
    var k :| 0 <= k < |users| && users[k] == u;
    var j :| 0 <= j < |users| && users[j] == r.value;
    assert j == k;
  }

  // ---------------------------------------------------------------------
  // Author synchronisation on sign-up

  /** How the synchronisation ends: linked to an author, answered with a
      failure message, or an exception that reaches the catch-all. */
  datatype Sync = Linked(autorId: int, reg: Registry) | Rejected(message: string, reg: Registry) | Crashed(reg: Registry)

  /** The registry part of `SignUp`: look the author up by e-mail; a null
      response is rejected; a response without `Ok` leads to creating the
      author; then the user is linked to it. A null create reply, whose `Ok`
      cannot be read, and a null or throwing link call end in the
      catch-all. */
  function SincronizarAutor(reg: Registry, dto: UsuarioSignUp, usuarioId: int, f: CallFaults): (s: Sync)
    ensures s.Linked? <==>
      (f.lookup != NullReply && f.lookup != Raises && f.link == Up
       && ((f.lookup == Up && FindAuthor(reg.authors, dto.email).Some?) || f.create == Up))
    ensures s.Linked? ==> LinkedToAuthor(s.reg, usuarioId, dto.email) && s.reg.links[usuarioId] == s.autorId
    ensures f.lookup == Raises ==> s == Crashed(reg)
    ensures f.lookup == NullReply ==> s == Rejected(NullReplyMessage, reg)
    ensures (f.lookup == Refused || (f.lookup == Up && FindAuthor(reg.authors, dto.email).None?)) ==>
      && (f.create == NullReply ==> s == Crashed(reg))
      && (f.create == Refused || f.create == Raises ==> s == Rejected(CreateAuthorFailed, reg))
    ensures f.lookup == Up && FindAuthor(reg.authors, dto.email).Some? ==> s.reg.authors == reg.authors
    ensures s.reg.authors == reg.authors
         || s.reg.authors == reg.authors + [Author(reg.nextId, dto.nombre, dto.apellidoP, dto.apellidoM, dto.email)]
    ensures !s.Linked? ==> s.reg.links == reg.links
  {
    match ObtenerAutor(reg, dto.email, f.lookup)
    case Raised => Crashed(reg)
    case Null => Rejected(NullReplyMessage, reg)
    case Response(found, id) =>
      var c := CrearAutor(reg, dto.nombre, dto.apellidoP, dto.apellidoM, dto.email, f.create);
      if !found && c.reply == Null then Crashed(reg)
      else if !found && !IsOk(c.reply) then Rejected(CreateAuthorFailed, reg)
      else
        assert !found ==> c.reg.authors[|reg.authors|].email == dto.email;
        var autorId := if found then id else c.reply.id;
        var reg1 := if found then reg else c.reg;
        var link := CrearRelacion(reg1, usuarioId, autorId, f.link);
        match link.reply
        case Response(ok, _) => if ok then Linked(autorId, link.reg) else Rejected(LinkFailed, reg1)
        case Null => Crashed(reg1)
        case Raised => Crashed(reg1)
  }

  /** When the lookup answers, sign-up and the outbox handler for
      `CREAR_AUTOR` do the same thing to the registry and succeed together;
      a null lookup stops sign-up while the handler goes on to create. */
  lemma SyncMatchesDispatcher(reg: Registry, d: UsuarioEventData, f: CallFaults)
    ensures var s := SincronizarAutor(reg, UsuarioSignUp(d.nombre, d.apellidoP, d.apellidoM, d.email, None), d.usuarioId, f);
      f.lookup != NullReply ==>
        (s.Linked? <==> ProcesarCrearAutor(reg, d, f).Returned?) && s.reg == ProcesarCrearAutor(reg, d, f).reg
    ensures f.lookup == NullReply && f.create == Up && f.link == Up ==>
      SincronizarAutor(reg, UsuarioSignUp(d.nombre, d.apellidoP, d.apellidoM, d.email, None), d.usuarioId, f).Rejected?
      && ProcesarCrearAutor(reg, d, f).Returned?
  {
  }

  // ---------------------------------------------------------------------
  // The controller

  class Controlador {
    const usuarios: UsuarioStore
    const codigos: LoginTokenStore
    const mailer: Mailer

    /** Both tables are well formed, no two users share an e-mail and no
        user holds two codes. */
    ghost predicate Valid()
      reads this, usuarios, codigos
    {
      && usuarios.Valid()
      && codigos.Valid()
      && UniqueEmails(usuarios.users)
      && AtMostOneCode(codigos.rows)
    }

    constructor()
      ensures Valid()
      ensures fresh(usuarios) && fresh(codigos) && fresh(mailer)
      ensures usuarios.users == [] && codigos.rows == [] && mailer.sent == []
    {
      usuarios := new UsuarioStore();
      codigos := new LoginTokenStore();
      mailer := new Mailer();
    }

    /** The code table was reissued for the user and one mail showing the
        code was sent. */
    twostate predicate Issued(usuarioId: int, to: string, subject: string, codigo: string, shown: string, expiracion: int, now: int)
      reads this, codigos, mailer
    {
      && codigos.rows == Reissue(old(codigos.rows), old(codigos.nextId), usuarioId, codigo, expiracion, now)
      && codigos.nextId == old(codigos.nextId) + 1
      && mailer.sent == old(mailer.sent) + [Mail(to, subject, shown)]
    }

    /** Remove the user's codes, store the new one and mail it; the result of
        the send is ignored. */
    method IssueCode(usuarioId: int, to: string, subject: string, codigo: string, shown: string,
                     expiracion: int, now: int, delivered: bool)
      requires Valid()
      modifies codigos, mailer
      ensures Valid()
      ensures Issued(usuarioId, to, subject, codigo, shown, expiracion, now)
      ensures CodesOf(codigos.rows, usuarioId) == [LoginToken(old(codigos.nextId), usuarioId, codigo, expiracion, now)]
    {
      ReissueSpec(codigos.rows, codigos.nextId, usuarioId, codigo, expiracion, now);
      var _ := codigos.EliminarTokensUsuario(usuarioId);
      var _ := codigos.CrearToken(usuarioId, codigo, expiracion, now);
      var _ := mailer.SendEmail(to, subject, shown, delivered);
    }

    /** `SignUp`. A rejected form changes nothing. An address that already
        belongs to a verified user is a conflict and changes nothing; one
        that belongs to an unverified user gets its code replaced and mailed
        again, and no user is created. Otherwise the user is created with
        role "1"; a staff address is then synchronised with the registry,
        and when that fails the new user stays but no code is issued. */
    method SignUp(dto: UsuarioSignUp, modelErrors: seq<string>, codigo: string, expiracion: int, now: int,
                  delivered: bool, reg: Registry, faults: CallFaults, excepcion: string)
      returns (res: ActionResult, regOut: Registry)
      requires Valid()
      modifies usuarios, codigos, mailer
      ensures Valid()
      ensures modelErrors != [] ==>
        res == ActionResult(BadRequest, Typed(Failure(InvalidData, Some(modelErrors))))
        && unchanged(usuarios, codigos, mailer) && regOut == reg
      ensures modelErrors == [] && FindByEmail(old(usuarios.users), dto.email).Some? ==>
        var e := FindByEmail(old(usuarios.users), dto.email).value;
        && unchanged(usuarios) && regOut == reg
        && (e.verificacionEmail ==> res == Fail(Conflict, DuplicateEmail) && unchanged(codigos, mailer))
        && (!e.verificacionEmail ==>
              && res == Succeed(Resent(e.id), Some(ResentMessage))
              && Issued(e.id, e.email, SubjectVerificacion, codigo, FormatCode(codigo), expiracion, now)
              && CodesOf(codigos.rows, e.id) == [LoginToken(old(codigos.nextId), e.id, codigo, expiracion, now)])
      ensures modelErrors == [] && FindByEmail(old(usuarios.users), dto.email).None? ==>
        var id := old(usuarios.nextId);
        var s := SincronizarAutor(reg, dto, id, faults);
        && usuarios.users == old(usuarios.users)
             + [Usuario(id, dto.nombre, dto.apellidoP, dto.apellidoM, dto.email, dto.boleta, RolInicial, false)]
        && (!Contains(dto.email, StaffMarker) || s.Linked? ==>
              && res == Succeed(Registered(id, if Contains(dto.email, StaffMarker) then s.autorId else 0), Some(SentMessage))
              && Issued(id, dto.email, SubjectVerificacion, codigo, FormatCode(codigo), expiracion, now)
              && CodesOf(codigos.rows, id) == [LoginToken(old(codigos.nextId), id, codigo, expiracion, now)])
        && (!Contains(dto.email, StaffMarker) ==> regOut == reg)
        && (Contains(dto.email, StaffMarker) ==> regOut == s.reg)
        && (Contains(dto.email, StaffMarker) && !s.Linked? ==>
              && res == (if s.Crashed? then Crash(excepcion) else Fail(BadRequest, s.message))
              && unchanged(codigos, mailer))
    {
      regOut := reg;
      if modelErrors != [] {
        res := ActionResult(BadRequest, Typed(Failure(InvalidData, Some(modelErrors))));
        return;
      }
      var existing := usuarios.GetUsuarioByEmail(dto.email);
      if existing.Some? {
        var e := existing.value;
        FindByIdOfMember(usuarios.users, e);
        if usuarios.EmailVerificado(e.id) {
          res := Fail(Conflict, DuplicateEmail);
          return;
        }
        FormatCodeIdempotent(codigo);
        IssueCode(e.id, e.email, SubjectVerificacion, codigo, FormatCode(FormatCode(codigo)), expiracion, now, delivered);
        res := Succeed(Resent(e.id), Some(ResentMessage));
        return;
      }
      var userId := usuarios.CreateUsuario(dto, RolInicial);
      var autorId := 0;
      if Contains(dto.email, StaffMarker) {
        var s := SincronizarAutor(reg, dto, userId, faults);
        regOut := s.reg;
        match s
        case Crashed(_) =>
          res := Crash(excepcion);
          return;
        case Rejected(m, _) =>
          res := Fail(BadRequest, m);
          return;
        case Linked(a, _) =>
          autorId := a;
      }
      IssueCode(userId, dto.email, SubjectVerificacion, codigo, FormatCode(codigo), expiracion, now, delivered);
      res := Succeed(Registered(userId, autorId), Some(SentMessage));
    }

    /** `SignIn`. An unknown address and an unverified user are refused
        without touching the code table. A verified user gets its code
        replaced and mailed; a user with role "2" then has its author link
        read from the registry, and a refused read is a bad request although
        the code was already issued. */
    method SignIn(email: string, codigo: string, expiracion: int, now: int, delivered: bool,
                  reg: Registry, relacion: Fault, jwt: string, jwtExp: int, excepcion: string)
      returns (res: ActionResult)
      requires Valid()
      modifies codigos, mailer
      ensures Valid()
      ensures FindByEmail(usuarios.users, email).None? ==>
        res == Fail(Unauthorized, WrongEmail) && unchanged(codigos, mailer)
      ensures FindByEmail(usuarios.users, email).Some? && !FindByEmail(usuarios.users, email).value.verificacionEmail ==>
        res == Fail(Unauthorized, NotVerified) && unchanged(codigos, mailer)
      ensures FindByEmail(usuarios.users, email).Some? && FindByEmail(usuarios.users, email).value.verificacionEmail ==>
        var u := FindByEmail(usuarios.users, email).value;
        var r := GetRelacion(reg, u.id, relacion);
        && Issued(u.id, u.email, SubjectConfirmar, codigo, FormatCode(codigo), expiracion, now)
        && CodesOf(codigos.rows, u.id) == [LoginToken(old(codigos.nextId), u.id, codigo, expiracion, now)]
        && (u.rol != RolAutor ==> res == Succeed(Session(u.id, 0, jwt, jwtExp), None))
        && (u.rol == RolAutor && IsOk(r) ==> res == Succeed(Session(u.id, r.id, jwt, jwtExp), None))
        && (u.rol == RolAutor && r.Response? && !r.ok ==> res == Fail(BadRequest, RelationErrorPrefix + IntToString(u.id)))
        && (u.rol == RolAutor && !r.Response? ==> res == Crash(excepcion))
    {
      var found := usuarios.GetUsuarioByEmail(email);
      if found.None? {
        res := Fail(Unauthorized, WrongEmail);
        return;
      }
      var u := found.value;
      FindByIdOfMember(usuarios.users, u);
      if !usuarios.EmailVerificado(u.id) {
        res := Fail(Unauthorized, NotVerified);
        return;
      }
      IssueCode(u.id, u.email, SubjectConfirmar, codigo, FormatCode(codigo), expiracion, now, delivered);
      var autorId := 0;
      if u.rol == RolAutor {
        var r := GetRelacion(reg, u.id, relacion);
        match r
        case Response(ok, id) =>
          if ok {
            autorId := id;
          } else {
            res := Fail(BadRequest, RelationErrorPrefix + IntToString(u.id));
            return;
          }
        case Null =>
          res := Crash(excepcion);
          return;
        case Raised =>
          res := Crash(excepcion);
          return;
      }
      res := Succeed(Session(u.id, autorId, jwt, jwtExp), None);
    }

    /** `VerificarEmail`. The checks run in order: a present code and a
        positive id, an existing user, a stored code, owned by that user, not
        expired. A code owned by someone else is left in place; an expired
        one is deleted. On success the user is verified and the code is
        consumed. */
    method VerificarEmail(codigo: Option<string>, usuarioId: int, now: int, jwt: string, jwtExp: int)
      returns (res: ActionResult)
      requires Valid()
      modifies usuarios, codigos
      ensures Valid()
      ensures codigo.None? || codigo.value == [] || usuarioId <= 0 ==>
        res == Fail(BadRequest, InvalidCode) && unchanged(usuarios, codigos)
      ensures codigo.Some? && codigo.value != [] && usuarioId > 0 ==>
        var c := codigo.value;
        var vc := FindToken(old(codigos.rows), c);
        && (FindById(old(usuarios.users), usuarioId).None? ==>
              res == Fail(NotFound, UserNotFound) && unchanged(usuarios, codigos))
        && (FindById(old(usuarios.users), usuarioId).Some? && vc.None? ==>
              res == Fail(NotFound, CodeNotFound) && unchanged(usuarios, codigos))
        && (FindById(old(usuarios.users), usuarioId).Some? && vc.Some? && vc.value.usuarioId != usuarioId ==>
              res == Fail(Unauthorized, WrongOwner) && unchanged(usuarios, codigos))
        && (FindById(old(usuarios.users), usuarioId).Some? && vc.Some? && vc.value.usuarioId == usuarioId ==>
              && codigos.rows == Filter(old(codigos.rows), OtherToken(c))
              && !HasToken(codigos.rows, c)
              && (TokenService.IsTokenExpired(now, vc.value.expires) ==>
                    res == Fail(BadRequest, CodeExpired) && unchanged(usuarios))
              && (!TokenService.IsTokenExpired(now, vc.value.expires) ==>
                    && res == Succeed(Access(jwt, jwtExp), None)
                    && usuarios.EmailVerificado(usuarioId)
                    && FlaggedFrom(old(usuarios.users), usuarios.users, usuarioId)))
    {
      if codigo.None? || codigo.value == [] || usuarioId <= 0 {
        res := Fail(BadRequest, InvalidCode);
        return;
      }
      var c := codigo.value;
      var usuario := usuarios.GetUsuarioById(usuarioId);
      if usuario.None? {
        res := Fail(NotFound, UserNotFound);
        return;
      }
      var vc := codigos.ObtenerToken(c);
      if vc.None? {
        res := Fail(NotFound, CodeNotFound);
        return;
      }
      if vc.value.usuarioId != usuarioId {
        res := Fail(Unauthorized, WrongOwner);
        return;
      }
      res := ConsumeCode(c, usuarioId, vc.value.expires, now, jwt, jwtExp);
    }

    /** The end of `VerificarEmail`, once the code was found and belongs to
        the user: an expired code is deleted; otherwise the user is marked
        verified and the code is deleted. */
    method ConsumeCode(c: string, usuarioId: int, expires: int, now: int, jwt: string, jwtExp: int)
      returns (res: ActionResult)
      requires Valid()
      requires FindById(usuarios.users, usuarioId).Some?
      modifies usuarios, codigos
      ensures Valid()
      ensures codigos.rows == Filter(old(codigos.rows), OtherToken(c)) && !HasToken(codigos.rows, c)
      ensures TokenService.IsTokenExpired(now, expires) ==> res == Fail(BadRequest, CodeExpired) && unchanged(usuarios)
      ensures !TokenService.IsTokenExpired(now, expires) ==>
        && res == Succeed(Access(jwt, jwtExp), None)
        && usuarios.EmailVerificado(usuarioId)
        && FlaggedFrom(old(usuarios.users), usuarios.users, usuarioId)
    {
      DeleteKeepsOneCode(codigos.rows, OtherToken(c));
      DeleteTokenSpec(codigos.rows, c);
      if TokenService.IsTokenExpired(now, expires) {
        var _ := codigos.EliminarToken(c);
        res := Fail(BadRequest, CodeExpired);
        return;
      }
      MarkVerified(usuarioId);
      var _ := codigos.EliminarToken(c);
      res := Succeed(Access(jwt, jwtExp), None);
    }

    /** Sets the verification flag of an existing user unless it is already
        set: that user's row changes in its flag alone, and no other row
        changes. */
    method MarkVerified(usuarioId: int)
      requires Valid()
      requires FindById(usuarios.users, usuarioId).Some?
      modifies usuarios
      ensures Valid()
      ensures usuarios.EmailVerificado(usuarioId)
      ensures FlaggedFrom(old(usuarios.users), usuarios.users, usuarioId)
    {
      var before := usuarios.users;
      if !usuarios.EmailVerificado(usuarioId) {
        var _ := usuarios.VerificacionEmail(usuarioId, true);
        FlagSet(before, usuarios.users, usuarioId);
      } else {
        AlreadyFlagged(before, usuarioId);
      }
    }

    /** `UpdateUsuario`. A rejected form, an unknown id and a new e-mail that
        another user already has are refused without change; otherwise the
        form is applied to that user alone. */
    method UpdateUsuario(id: int, dto: UsuarioUpdate, modelErrors: seq<string>) returns (res: ActionResult)
      requires Valid()
      modifies usuarios
      ensures Valid()
      ensures modelErrors != [] ==>
        res == ActionResult(BadRequest, Untyped(SimpleFailure(InvalidData, Some(modelErrors)))) && unchanged(usuarios)
      ensures modelErrors == [] && FindById(old(usuarios.users), id).None? ==>
        res == Fail(NotFound, UserNotFound) && unchanged(usuarios)
      ensures modelErrors == [] && FindById(old(usuarios.users), id).Some? ==>
        var u := FindById(old(usuarios.users), id).value;
        var clash := dto.email.Some? && dto.email.value != [] && dto.email.value != u.email
                     && FindByEmail(old(usuarios.users), dto.email.value).Some?;
        && (clash ==> res == Fail(Conflict, DuplicateEmail) && unchanged(usuarios))
        && (!clash ==>
              && res == ActionResult(Ok, Untyped(SimpleSuccess(Some(UpdatedMessage))))
              && |usuarios.users| == |old(usuarios.users)|
              && forall i :: 0 <= i < |usuarios.users| ==>
                   usuarios.users[i] == if old(usuarios.users)[i].id == id then Apply(old(usuarios.users)[i], dto)
                                        else old(usuarios.users)[i])
    {
      if modelErrors != [] {
        res := ActionResult(BadRequest, Untyped(SimpleFailure(InvalidData, Some(modelErrors))));
        return;
      }
      var usuario := usuarios.GetUsuarioById(id);
      if usuario.None? {
        res := Fail(NotFound, UserNotFound);
        return;
      }
      var u := usuario.value;
      if dto.email.Some? && dto.email.value != [] && dto.email.value != u.email {
        var other := usuarios.GetUsuarioByEmail(dto.email.value);
        if other.Some? {
          res := Fail(Conflict, DuplicateEmail);
          return;
        }
      }
      var before := usuarios.users;
      var ok := usuarios.UpdateUsuario(id, dto);
      UpdateKeepsEmailsUnique(before, usuarios.users, u, dto);
      res := if ok then ActionResult(Ok, Untyped(SimpleSuccess(Some(UpdatedMessage))))
             else Fail(BadRequest, UpdateFailed);
    }

    /** `DeleteUsuario`. An unknown id is not found; otherwise that user and
        no other is removed. Its codes stay in the code table. */
    method DeleteUsuario(id: int) returns (res: ActionResult)
      requires Valid()
      modifies usuarios
      ensures Valid()
      ensures FindById(old(usuarios.users), id).None? ==> res == Fail(NotFound, UserNotFound) && unchanged(usuarios)
      ensures FindById(old(usuarios.users), id).Some? ==>
        && res == ActionResult(Ok, Untyped(SimpleSuccess(Some(DeletedMessage))))
        && usuarios.users == Filter(old(usuarios.users), OtherId(id))
        && FindById(usuarios.users, id).None?
    {
      var usuario := usuarios.GetUsuarioById(id);
      if usuario.None? {
        res := Fail(NotFound, UserNotFound);
        return;
      }
      FilterPairwise(usuarios.users, OtherId(id), (a: Usuario, b: Usuario) => a.email != b.email);
      var ok := usuarios.DeleteUsuario(id);
      res := if ok then ActionResult(Ok, Untyped(SimpleSuccess(Some(DeletedMessage))))
             else Fail(BadRequest, DeleteFailed);
    }

    /** A staff sign-up whose author synchronisation failed leaves an
        unverified user behind. Signing up again with the same address takes
        the resend path: it answers with the id of that user and does not
        contact the registry, so sign-up never links that user to an
        author. */
    method SignUpAgainAfterFailedSync(dto: UsuarioSignUp, codigo1: string, codigo2: string, expiracion: int, now: int,
                                      delivered: bool, reg: Registry, faults1: CallFaults, faults2: CallFaults,
                                      excepcion: string)
      returns (first: ActionResult, second: ActionResult, regOut: Registry)
      requires Valid()
      requires FindByEmail(usuarios.users, dto.email).None?
      requires Contains(dto.email, StaffMarker)
      requires faults1.lookup == NullReply
      modifies usuarios, codigos, mailer
      ensures Valid()
      ensures first == Fail(BadRequest, NullReplyMessage)
      ensures second == Succeed(Resent(old(usuarios.nextId)), Some(ResentMessage))
      ensures regOut == reg
    {
      var reg1;
      first, reg1 := SignUp(dto, [], codigo1, expiracion, now, delivered, reg, faults1, excepcion);
      FindFirstSnoc(old(usuarios.users),
        Usuario(old(usuarios.nextId), dto.nombre, dto.apellidoP, dto.apellidoM, dto.email, dto.boleta, RolInicial, false),
        HasEmail(dto.email));
      second, regOut := SignUp(dto, [], codigo2, expiracion, now, delivered, reg1, faults2, excepcion);
    }

    /** A code works once: verifying it a second time finds no code. */
    method VerificarDosVeces(c: string, usuarioId: int, now: int, jwt: string, jwtExp: int)
      returns (first: ActionResult, second: ActionResult)
      requires Valid()
      modifies usuarios, codigos
      ensures Valid()
      ensures first.status == Ok ==> second == Fail(NotFound, CodeNotFound)
    {
      first := VerificarEmail(Some(c), usuarioId, now, jwt, jwtExp);
      second := VerificarEmail(Some(c), usuarioId, now, jwt, jwtExp);
    }
  }

  /** `after` is `before` with the verification flag of the rows carrying
      `id` set, and nothing else changed. */
  predicate FlaggedFrom(before: seq<Usuario>, after: seq<Usuario>, id: int) {
    && |after| == |before|
    && forall i :: 0 <= i < |before| ==>
         after[i] == if before[i].id == id then before[i].(verificacionEmail := true) else before[i]
  }

  /** Setting the flag of an existing user makes the verification query
      answer yes and leaves every e-mail where it was. */
  lemma FlagSet(before: seq<Usuario>, after: seq<Usuario>, id: int)
    requires FindById(before, id).Some? && UniqueEmails(before)
    requires FlaggedFrom(before, after, id)
    ensures FindById(after, id).Some? && FindById(after, id).value.verificacionEmail
    ensures UniqueEmails(after)
  {
    var k :| 0 <= k < |before| && before[k] == FindById(before, id).value;
    assert after[k].id == id;
    var r := FindById(after, id);
    var j :| 0 <= j < |after| && after[j] == r.value;
    assert before[j].id == id;
    assert forall i :: 0 <= i < |after| ==> after[i].email == before[i].email;
  }

  /** A user who already reads as verified is its own flag update: with ids
      distinct, the row the lookup finds is the only one with the id. */
  lemma AlreadyFlagged(users: seq<Usuario>, id: int)
    requires RepositorioUsuarios.IncreasingIds(users)
    requires FindById(users, id).Some? && FindById(users, id).value.verificacionEmail
    ensures FlaggedFrom(users, users, id)
  {
    var k :| 0 <= k < |users| && users[k] == FindById(users, id).value;
    forall i | 0 <= i < |users| && users[i].id == id
      ensures users[i].verificacionEmail
    {
      assert i == k;
    }
  }

  /** Applying an update form to one user keeps e-mails unique when the new
      address, if it differs from the user's own, belongs to nobody. */
  lemma UpdateKeepsEmailsUnique(users: seq<Usuario>, after: seq<Usuario>, u: Usuario, dto: UsuarioUpdate)
    requires RepositorioUsuarios.IncreasingIds(users) && UniqueEmails(users) && u in users
    requires dto.email.Some? && dto.email.value != [] && dto.email.value != u.email ==>
      FindByEmail(users, dto.email.value).None?
    requires |after| == |users|
    requires forall i :: 0 <= i < |users| ==>
      after[i] == if users[i].id == u.id then Apply(users[i], dto) else users[i]
    ensures UniqueEmails(after)
  {
    var k :| 0 <= k < |users| && users[k] == u;
    forall i, j | 0 <= i < j < |after|
      ensures after[i].email != after[j].email
    {
      assert users[i].id < users[j].id;
      if users[i].id == u.id {
        assert i == k;
      }
      if users[j].id == u.id {
        assert j == k;
      }
    }
  }
}
