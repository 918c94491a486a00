/** The response envelope every controller action returns: a success flag, an
    optional payload, an optional message and an optional list of error texts.
    The source has a generic `Respuesta<T>` and a payload-free `Respuesta`; here
    they are `Respuesta<T>` and `RespuestaSimple`. */
module Respuestas {
  import opened Common

  datatype Respuesta<T> = Respuesta(
    ok: bool,
    data: Option<T>,
    message: Option<string>,
    errors: Option<seq<string>>)

  datatype RespuestaSimple = RespuestaSimple(
    ok: bool,
    message: Option<string>,
    errors: Option<seq<string>>)

  /** `Respuesta<T>.Success(data, message)`. */
  function Success<T>(data: T, message: Option<string>): (r: Respuesta<T>)
    ensures r.ok && r.data == Some(data) && r.message == message && r.errors.None?
  {
    Respuesta(true, Some(data), message, None)
  }

  /** The two-argument `Respuesta<T>.Failure(message, errors)`: no payload. */
  function Failure<T>(message: string, errors: Option<seq<string>>): (r: Respuesta<T>)
    ensures !r.ok && r.data.None? && r.message == Some(message) && r.errors == errors
  {
    Respuesta(false, None, Some(message), errors)
  }

  /** The three-argument `Respuesta<T>.Failure(message, errors, data)`: the
      payload is whatever the caller passed, `None` for the default. */
  function FailureWithData<T>(message: string, errors: Option<seq<string>>, data: Option<T>): (r: Respuesta<T>)
    ensures !r.ok && r.data == data && r.message == Some(message) && r.errors == errors
  {
    Respuesta(false, data, Some(message), errors)
  }

  /** `Respuesta.Success(message)`. */
  function SimpleSuccess(message: Option<string>): (r: RespuestaSimple)
    ensures r.ok && r.message == message && r.errors.None?
  {
    RespuestaSimple(true, message, None)
  }

  /** `Respuesta.Failure(message, errors)`. */
  function SimpleFailure(message: string, errors: Option<seq<string>>): (r: RespuestaSimple)
    ensures !r.ok && r.message == Some(message) && r.errors == errors
  {
    RespuestaSimple(false, Some(message), errors)
  }

  /** The two `Failure` overloads agree when the three-argument one is given
      the default payload, and no failure envelope equals a success envelope. */
  lemma FailureOverloadsAgree<T>(message: string, errors: Option<seq<string>>, data: T, m: Option<string>)
    ensures Failure<T>(message, errors) == FailureWithData(message, errors, None)
    ensures FailureWithData(message, errors, Some(data)) != Success(data, m)
    ensures SimpleFailure(message, errors) != SimpleSuccess(m)
  {
  }
}
