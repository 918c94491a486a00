/** The `LoginToken` table: short-lived codes owned by a user. The controller
    uses it as its verification-code table. Times are integer seconds; the
    database clock is the parameter `now`. */
module RepositorioLoginTokens {
  import opened Common

  datatype LoginToken = LoginToken(id: int, usuarioId: int, token: string, expires: int, creado: int)

  /** Rows owned by user `u`. */
  function OwnedBy(u: int): LoginToken -> bool {
    (t: LoginToken) => t.usuarioId == u
  }

  /** Rows owned by anybody but user `u`. */
  function NotOwnedBy(u: int): LoginToken -> bool {
    (t: LoginToken) => t.usuarioId != u
  }

  /** Rows holding a value other than `token`. */
  function OtherToken(token: string): LoginToken -> bool {
    (t: LoginToken) => t.token != token
  }

  /** Rows of user `u` that expire strictly after `now`. */
  function LiveFor(u: int, now: int): LoginToken -> bool {
    (t: LoginToken) => t.usuarioId == u && t.expires > now
  }

  /** The codes of user `u`, in table order. */
  function CodesOf(rows: seq<LoginToken>, u: int): seq<LoginToken> {
    Filter(rows, OwnedBy(u))
  }

  predicate HasToken(rows: seq<LoginToken>, token: string) {
    exists i | 0 <= i < |rows| :: rows[i].token == token
  }

  predicate HasCodeOf(rows: seq<LoginToken>, u: int) {
    exists i | 0 <= i < |rows| :: rows[i].usuarioId == u
  }

  /** Rows holding `token`. */
  function WithToken(token: string): LoginToken -> bool {
    (t: LoginToken) => t.token == token
  }

  /** `SELECT ... WHERE token = @token`, first row read. */
  function FindToken(rows: seq<LoginToken>, token: string): (r: Option<LoginToken>)
    ensures r.Some? ==> r.value in rows && r.value.token == token
    ensures r.None? <==> !HasToken(rows, token)
  {
    FindFirst(rows, WithToken(token))
  }

  /** `DELETE ... WHERE token = @token`: no row keeps the value, a lookup of
      any other value answers as before, and something was removed exactly
      when the value was present. */
  lemma DeleteTokenSpec(rows: seq<LoginToken>, token: string)
    ensures !HasToken(Filter(rows, OtherToken(token)), token)
    ensures FindToken(Filter(rows, OtherToken(token)), token).None?
    ensures |Filter(rows, OtherToken(token))| < |rows| <==> HasToken(rows, token)
    ensures !HasToken(rows, token) ==> Filter(rows, OtherToken(token)) == rows
    ensures forall t :: t != token ==> FindToken(Filter(rows, OtherToken(token)), t) == FindToken(rows, t)
  {
    var r := Filter(rows, OtherToken(token));
    forall i | 0 <= i < |r|
      ensures r[i].token != token
    {
      assert r[i] in r;
    }
    forall t | t != token
      ensures FindToken(r, t) == FindToken(rows, t)
    {
      FindFirstFiltered(rows, OtherToken(token), WithToken(t));
    }
  }

  /** `DELETE ... WHERE userId = @userId`: exactly the rows of that user go,
      other users keep theirs, and something was removed exactly when the
      user had a code. */
  lemma DeleteUserSpec(rows: seq<LoginToken>, u: int)
    ensures CodesOf(Filter(rows, NotOwnedBy(u)), u) == []
    ensures forall v :: v != u ==> CodesOf(Filter(rows, NotOwnedBy(u)), v) == CodesOf(rows, v)
    ensures |Filter(rows, NotOwnedBy(u))| < |rows| <==> HasCodeOf(rows, u)
  {
    var r := Filter(rows, NotOwnedBy(u));
    forall i | 0 <= i < |r|
      ensures !OwnedBy(u)(r[i])
    {
      assert r[i] in r;
    }
    FilterNone(r, OwnedBy(u));
    forall v | v != u
      ensures CodesOf(r, v) == CodesOf(rows, v)
    {
      FilterOfFilter(rows, u, v);
    }
  }

  /** The codes of another user survive the removal of `u`'s codes. */
  lemma {:induction false} FilterOfFilter(rows: seq<LoginToken>, u: int, v: int)
    requires u != v
    ensures CodesOf(Filter(rows, NotOwnedBy(u)), v) == CodesOf(rows, v)
    decreases |rows|
  {
    if rows != [] {
      var init := rows[..|rows| - 1];
      var x := rows[|rows| - 1];
      assert rows == init + [x];
      FilterOfFilter(init, u, v);
      FilterSnoc(init, x, NotOwnedBy(u));
      FilterSnoc(init, x, OwnedBy(v));
      FilterSnoc(Filter(init, NotOwnedBy(u)), x, OwnedBy(v));
    }
  }

  /** Removing a user's codes and then issuing one leaves that user exactly
      the new code, which is the at-most-one-code discipline the controller
      relies on. */
  lemma ReplaceCodes(rows: seq<LoginToken>, t: LoginToken)
    ensures CodesOf(Filter(rows, NotOwnedBy(t.usuarioId)) + [t], t.usuarioId) == [t]
  {
    DeleteUserSpec(rows, t.usuarioId);
    FilterSnoc(Filter(rows, NotOwnedBy(t.usuarioId)), t, OwnedBy(t.usuarioId));
  }

  /** `SELECT COUNT(*) ... WHERE userId = @userId AND expires > @now`, compared
      with zero. */
  function HasLiveToken(rows: seq<LoginToken>, u: int, now: int): (valid: bool)
    ensures valid <==> exists i :: 0 <= i < |rows| && rows[i].usuarioId == u && rows[i].expires > now
  {
    var live := Filter(rows, LiveFor(u, now));
    assert live != [] ==> live[0] in live;
    assert forall i :: 0 <= i < |rows| && LiveFor(u, now)(rows[i]) ==> rows[i] in live;
    |live| > 0
  }

  /** Ids grow along the table (auto-increment), so they are distinct. */
  predicate IncreasingIds(rows: seq<LoginToken>) {
    forall i, j :: 0 <= i < j < |rows| ==> rows[i].id < rows[j].id
  }

  /** Deleting rows keeps the ids increasing and below the counter. */
  lemma DeletePreservesIds(rows: seq<LoginToken>, keep: LoginToken -> bool, nextId: int)
    requires IncreasingIds(rows) && forall i :: 0 <= i < |rows| ==> rows[i].id < nextId
    ensures IncreasingIds(Filter(rows, keep))
    ensures forall i :: 0 <= i < |Filter(rows, keep)| ==> Filter(rows, keep)[i].id < nextId
  {
    FilterPairwise(rows, keep, (a: LoginToken, b: LoginToken) => a.id < b.id);
    var r := Filter(rows, keep);
    forall i | 0 <= i < |r|
      ensures r[i].id < nextId
    {
      assert r[i] in r;
    }
  }

  /** The table with its auto-increment counter. */
  class LoginTokenStore {
    var rows: seq<LoginToken>
    var nextId: int

    ghost predicate Valid()
      reads this
    {
      IncreasingIds(rows) && forall i :: 0 <= i < |rows| ==> rows[i].id < nextId
    }

    constructor()
      ensures Valid() && rows == [] && nextId == 1
    {
      rows := [];
      nextId := 1;
    }

    /** `CrearTokenAsync`: one new row; the record handed back echoes the
        inputs under the new id. */
    method CrearToken(usuarioId: int, token: string, fechaExp: int, now: int) returns (t: LoginToken)
      requires Valid()
      modifies this
      ensures Valid()
      ensures t == LoginToken(old(nextId), usuarioId, token, fechaExp, now)
      ensures rows == old(rows) + [t] && nextId == old(nextId) + 1
    {
      t := LoginToken(nextId, usuarioId, token, fechaExp, now);
      rows := rows + [t];
      nextId := nextId + 1;
    }

    /** `ObtenerTokenAsync`: a row holding the value, or null. */
    function ObtenerToken(token: string): (r: Option<LoginToken>)
      reads this
      ensures r.Some? ==> r.value in rows && r.value.token == token
      ensures r.None? <==> !HasToken(rows, token)
    {
      FindToken(rows, token)
    }

    /** `EliminarTokenAsync`: every row with the value is removed; the answer
        says whether there was one. */
    method EliminarToken(token: string) returns (removed: bool)
      requires Valid()
      modifies this
      ensures Valid()
      ensures rows == Filter(old(rows), OtherToken(token)) && nextId == old(nextId)
      ensures removed <==> HasToken(old(rows), token)
    {
      DeleteTokenSpec(rows, token);
      DeletePreservesIds(rows, OtherToken(token), nextId);
      var before := |rows|;
      rows := Filter(rows, OtherToken(token));
      removed := |rows| < before;
    }

    /** `EliminarTokensUsuarioAsync`: every row of the user is removed; the
        answer says whether there was one. */
    method EliminarTokensUsuario(usuarioId: int) returns (removed: bool)
      requires Valid()
      modifies this
      ensures Valid()
      ensures rows == Filter(old(rows), NotOwnedBy(usuarioId)) && nextId == old(nextId)
      ensures removed <==> HasCodeOf(old(rows), usuarioId)
    {
      DeleteUserSpec(rows, usuarioId);
      DeletePreservesIds(rows, NotOwnedBy(usuarioId), nextId);
      var before := |rows|;
      rows := Filter(rows, NotOwnedBy(usuarioId));
      removed := |rows| < before;
    }

    /** `TokenValidoAsync`: the user holds a code that has not yet expired. */
    function TokenValido(usuarioId: int, now: int): (valid: bool)
      reads this
      ensures valid <==> exists i :: 0 <= i < |rows| && rows[i].usuarioId == usuarioId && rows[i].expires > now
    {
      HasLiveToken(rows, usuarioId, now)
    }
  }
}
