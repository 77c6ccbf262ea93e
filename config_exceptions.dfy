/** The exceptions the configuration layer throws or passes through, by the class that
    `PropertiesConfigLoader.load` and `reload` tell apart. */
module ConfigExceptions {

  datatype Thrown =
    | IllegalArgument   // IllegalArgumentException: an invalid or missing property value
    | IOFailure         // IOException, thrown by a supplier or wrapping another exception
    | OtherException    // any other checked or unchecked exception

  /** What `load` and `reload` rethrow: an IllegalArgumentException or an IOException as it
      is, anything else wrapped in an IOException. */
  function Wrap(t: Thrown): (w: Thrown)
    ensures w.IllegalArgument? || w.IOFailure?
    ensures t.IllegalArgument? || t.IOFailure? ==> w == t
    ensures t.OtherException? ==> w == IOFailure
  {
    if t.IllegalArgument? || t.IOFailure? then t else IOFailure
  }
}
