/**
 * The error record of web/app/utils/errors.js and the way boolean.js builds
 * it. The constructor destructures ONE options object; boolean.js calls it
 * with two positional arguments `(code, payload)`.
 */
module Errors {
  import opened Wrappers

  /** `CadError.KIND`. */
  datatype Kind = INTERNAL_ERROR | UNSUPPORTED_CASE | INVALID_INPUT

  /** The options object the constructor destructures; a missing property is `None`. */
  datatype Options<P> = Options(
    kind: Option<Kind>,
    code: Option<string>,
    relatedTopoObjects: Option<P>,
    userMessage: Option<string>)

  /** A thrown `CadError`, with `P` the type of its related topology objects. */
  datatype CadError<P> = CadError(
    kind: Kind,
    code: Option<string>,
    relatedTopoObjects: Option<P>,
    userMessage: Option<string>)

  /** Codes boolean.js passes. */
  const BOOLEAN_INVALID_RESULT: string := "BOOLEAN_INVALID_RESULT"
  const UNABLE_BOOLEAN_OPERAND_INVERSION: string := "UNABLE_BOOLEAN_OPERAND_INVERSION"

  /** The constructor: `kind` falls back to INTERNAL_ERROR, the rest is copied. */
  function NewCadError<P>(options: Options<P>): (e: CadError<P>)
    ensures options.kind.None? ==> e.kind == INTERNAL_ERROR
  {
    CadError(
      if options.kind.Some? then options.kind.value else INTERNAL_ERROR,
      options.code, options.relatedTopoObjects, options.userMessage)
  }

  /**
   * Destructuring a string primitive: a string has no `kind`, `code`,
   * `relatedTopoObjects` or `userMessage` property.
   */
  function OptionsOfString<P>(s: string): Options<P>
  {
    Options(None, None, None, None)
  }

  /**
   * `new CadError(code, payload)` as boolean.js writes it: the code is
   * destructured as if it were the options object and the payload is an
   * argument the constructor does not declare.
   */
  function PositionalCadError<P>(code: string, payload: P): (e: CadError<P>)
    ensures e.kind == INTERNAL_ERROR
  {
    NewCadError(OptionsOfString(code))
  }

  /** The call the code evidently intends: `new CadError({code, relatedTopoObjects: payload})`. */
  function CodedCadError<P>(code: string, payload: P): (e: CadError<P>)
    ensures e.kind == INTERNAL_ERROR
  {
    NewCadError(Options(None, Some(code), Some(payload), None))
  }

  /** As written, the thrown error keeps neither the code nor the payload. */
  lemma PositionalCallLosesCodeAndPayload<P>(code: string, payload: P)
    ensures PositionalCadError(code, payload) == CadError(INTERNAL_ERROR, None, None, None)
    ensures forall code': string, payload': P ::
      PositionalCadError(code', payload') == PositionalCadError(code, payload)
  {
  }

  /** With an options object the code and the payload reach the caller. */
  lemma CodedCallKeepsCodeAndPayload<P>(code: string, payload: P)
    ensures CodedCadError(code, payload).code == Some(code)
    ensures CodedCadError(code, payload).relatedTopoObjects == Some(payload)
  {
  }

  /** `edgeCollisionError(e1, e2)`: the two colliding half-edges. */
  datatype EdgeCollision = EdgeCollision(e1: nat, e2: nat)
  {
    /** Every collision record carries the same code. */
    function Code(): string { "EDGE_COLLISION" }
  }
}
