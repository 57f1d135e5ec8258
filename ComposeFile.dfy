/**
 * The data the port resolver works on: loaded docker-compose documents and
 * the errors it reports. A YAML scalar is left abstract (type parameter S);
 * the text `fmt.Sprintf("%v", x)` gives it is a function supplied by the
 * caller.
 */
module ComposeFile {

  /** A service setting after YAML decoding: a list, or any other value (a scalar, a map, null). */
  datatype Value<S> = List(items: seq<S>) | Other

  /** One service's settings, by field name. */
  type Settings<S> = map<string, Value<S>>

  /** One loaded compose document: its services by name. */
  datatype Compose<S> = Compose(services: map<string, Settings<S>>)

  /**
   * NoPorts is `fmt.Errorf("no ports")` for a `ports` field that is not a list;
   * InvalidPortNumber(num) is the `*strconv.NumError` for a host-port token `num`.
   */
  datatype PortsError = NoPorts | InvalidPortNumber(num: string)
}
