/** The Java objects the registry stores as resources and the configuration layer stores
    as values, compared as `Objects.equals` compares them. */
module Values {

  datatype Value =
    | Handle(id: nat)                        // any other object, up to `equals` (a connection, a parsed number)
    | Bool(b: bool)                          // a `java.lang.Boolean`
    | Text(s: string)                        // a `java.lang.String`
    | StringMap(entries: map<string, string>)  // a `Map<String, String>`, compared entry by entry
}
