/** Values shared by the service and the load client: JSON objects whose
    values are strings, and an Option for "may be absent". */
module Records {

  /** A present-or-absent value: a decoded JSON body, an optional payload. */
  datatype Option<+T> = None | Some(value: T)

  /** A flat JSON object as the service returns it and the client stores it:
      key to text. */
  type Record = map<string, string>
}
