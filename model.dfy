/** The record exchanged by every connection-config backend, and the small
    wrappers the backends return. */
module Model {

  /** An optional lookup result (Java's Optional, or a nullable return). */
  datatype Option<+T> = None | Some(value: T)

  /** A connection config: the six fields of the Lombok record, compared
      structurally (datatype equality covers every field). */
  datatype ConnectionConfig = ConnectionConfig(
    url: string,
    username: string,
    password: string,
    name: string,
    serviceType: string,
    properties: map<string, string>)

  /** Unchecked exceptions that escape an operation instead of being mapped
      to an empty result. */
  datatype Failure =
    | YamlFailure   // the YAML library failed to read or parse the descriptor
    | NullPointer   // the descriptor was empty, so the loaded record was null
    | UncheckedIO   // the directory walk failed after it had started

  /** How a call ends: it returns a value, or an unchecked exception escapes. */
  datatype Outcome<+T> = Normal(value: T) | Raised(failure: Failure)

  /** Two records agree on every field except `name`. */
  predicate SameApartFromName(a: ConnectionConfig, b: ConnectionConfig)
  {
    && a.url == b.url
    && a.username == b.username
    && a.password == b.password
    && a.serviceType == b.serviceType
    && a.properties == b.properties
  }

  /** Setting the name of a record changes that field and no other. */
  function WithName(c: ConnectionConfig, n: string): (r: ConnectionConfig)
    ensures r.name == n
    ensures SameApartFromName(r, c)
    ensures c.name == n ==> r == c
  {
    c.(name := n)
  }
}
