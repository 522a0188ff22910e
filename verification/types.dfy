/** The records shared by the capture path, the store and the viewer. */
module Types {

  /** A captured message. `headers` is filled by nobody in the capture path
      and is not a column of the store, so a record read back has none. */
  datatype Email = Email(
    id: string,
    from: string,
    to: string,
    subject: string,
    body: string,
    date: string,
    headers: map<string, string>)

  /** The viewer state the key handlers change. The store handle, the server
      handle and the arrival channel of the original record are passed to the
      handlers separately. */
  datatype AppState = AppState(
    selectedEmailIndex: int,
    emails: seq<Email>,
    mode: string,
    showPopup: bool,
    popupScroll: int)
}
