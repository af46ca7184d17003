/** The configuration held by a `CollaborativeFilter` instance. */
module Config {
  import opened Wrappers

  /** The only failure the modelled code can raise: dereferencing a null reference. */
  datatype Fault = NullPointer

  /**
   * The identity of an `Emitter` instance (such as `Emitter.cosineWeighted`); what it
   * emits is supplied separately as an opaque function.
   */
  datatype Emitter = Emitter(name: string)

  /**
   * A collaborative filter's fields; a `None` emitter is one that was never set (null).
   * Java `double` is modelled as `real`.
   */
  datatype CollaborativeFilter = CollaborativeFilter(emitter: Option<Emitter>, rowNorm: bool, threshold: real)

  /** The no-argument constructor: row normalisation off, Java field defaults elsewhere. */
  function Fresh(): (cf: CollaborativeFilter)
    ensures !cf.rowNorm
    ensures cf.emitter.None?
    ensures cf.threshold == 0.0
  {
    CollaborativeFilter(None, false, 0.0)
  }
}
