/** The `TokenVerificacion` table: e-mail verification tokens owned by a user,
    with insert, lookup by value and delete by value. Times are integer
    seconds. */
module RepositorioTokens {
  import opened Common

  datatype TokenVerificacion = TokenVerificacion(id: int, usuarioId: int, token: string, expires: int)

  /** Rows holding `token`. */
  function WithToken(token: string): TokenVerificacion -> bool {
    (t: TokenVerificacion) => t.token == token
  }

  /** Rows holding a value other than `token`. */
  function OtherToken(token: string): TokenVerificacion -> bool {
    (t: TokenVerificacion) => t.token != token
  }

  predicate HasToken(rows: seq<TokenVerificacion>, token: string) {
    exists i | 0 <= i < |rows| :: rows[i].token == token
  }

  /** `SELECT ... WHERE token = @token`, first row read. */
  function FindToken(rows: seq<TokenVerificacion>, token: string): (r: Option<TokenVerificacion>)
    ensures r.Some? ==> r.value in rows && r.value.token == token
    ensures r.None? <==> !HasToken(rows, token)
  {
    FindFirst(rows, WithToken(token))
  }

  /** After `DELETE ... WHERE token = @token` the value is gone, every row
      holding another value is still there in the same order, and something
      was removed exactly when the value was present. */
  lemma DeleteTokenSpec(rows: seq<TokenVerificacion>, token: string)
    ensures FindToken(Filter(rows, OtherToken(token)), token).None?
    ensures forall t :: t != token ==> FindToken(Filter(rows, OtherToken(token)), t) == FindToken(rows, t)
    ensures forall x: TokenVerificacion :: x.token != token ==> (x in Filter(rows, OtherToken(token)) <==> x in rows)
    ensures |Filter(rows, OtherToken(token))| < |rows| <==> HasToken(rows, token)
    ensures !HasToken(rows, token) ==> Filter(rows, OtherToken(token)) == rows
  {
    var r := Filter(rows, OtherToken(token));
    forall i | 0 <= i < |r|
      ensures r[i].token != token
    {
      assert r[i] in r;
    }
    forall t | t != token
      ensures FindToken(r, t) == FindToken(rows, t)
    {
      FindFirstFiltered(rows, OtherToken(token), WithToken(t));
    }
  }

  predicate IncreasingIds(rows: seq<TokenVerificacion>) {
    forall i, j :: 0 <= i < j < |rows| ==> rows[i].id < rows[j].id
  }

  /** The table with its auto-increment counter. */
  class TokenStore {
    var rows: seq<TokenVerificacion>
    var nextId: int

    ghost predicate Valid()
      reads this
    {
      IncreasingIds(rows) && forall i :: 0 <= i < |rows| ==> rows[i].id < nextId
    }

    constructor()
      ensures Valid() && rows == [] && nextId == 1
    {
      rows := [];
      nextId := 1;
    }

    /** `CreateTokenAsync`: one new row; the record handed back echoes the
        inputs under the new id. */
    method CreateToken(userId: int, token: string, expirationTime: int) returns (t: TokenVerificacion)
      requires Valid()
      modifies this
      ensures Valid()
      ensures t == TokenVerificacion(old(nextId), userId, token, expirationTime)
      ensures rows == old(rows) + [t] && nextId == old(nextId) + 1
    {
      t := TokenVerificacion(nextId, userId, token, expirationTime);
      rows := rows + [t];
      nextId := nextId + 1;
    }

    /** `GetTokenAsync`: a row holding the value, or null. */
    function GetToken(token: string): (r: Option<TokenVerificacion>)
      reads this
      ensures r.Some? ==> r.value in rows && r.value.token == token
      ensures r.None? <==> !HasToken(rows, token)
    {
      FindToken(rows, token)
    }

    /** `DeleteTokenAsync`: every row with the value is removed; the answer
        says whether there was one. */
    method DeleteToken(token: string) returns (removed: bool)
      requires Valid()
      modifies this
      ensures Valid()
      ensures rows == Filter(old(rows), OtherToken(token)) && nextId == old(nextId)
      ensures removed <==> HasToken(old(rows), token)
      ensures GetToken(token).None?
    {
      DeleteTokenSpec(rows, token);
      FilterPairwise(rows, OtherToken(token), (a: TokenVerificacion, b: TokenVerificacion) => a.id < b.id);
      var before := |rows|;
      rows := Filter(rows, OtherToken(token));
      removed := |rows| < before;
      assert forall i :: 0 <= i < |rows| ==> rows[i] in rows;
    }
  }
}
