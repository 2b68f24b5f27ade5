/** Options 1, 2 and 5 of `interactive_menu` in pruebaVPS.py, each as one
    pass through the loop. Options 1 and 2 load the configuration, may update
    it and write it back, and hand the URL to the chosen connection method;
    option 5 only opens the browser. Reading the file is the
    `file` parameter (`None` when it does not exist), and what `save_config`
    writes is the `written` result (`None` when nothing is written). */
module Menu {
  import opened Wrappers
  import opened Store
  import opened Launch

  /** The name a connection is saved under: an empty answer means "default". */
  function SaveName(name: string): (r: string)
    ensures r != ""
    ensures name != "" ==> r == name
    ensures name == "" ==> r == "default"
  {
    if name == "" then "default" else name
  }

  /** Option 1, "connect with a new URL". An empty URL is rejected: nothing
      is saved and no connection is tried. Otherwise the URL is saved under
      `SaveName(name)` and then opened with the method `choice`. */
  method NewConnection(file: Option<Document>, url: string, name: string, choice: string,
                       now: real, pathExists: string -> bool)
    returns (written: Option<Document>, action: Option<Action>)
    requires file.Some? ==> ValidDocument(file.value)
    ensures url == "" <==> written.None?
    ensures url == "" ==> action.None?
    ensures url != "" ==>
              written == Some(Document(
                Some(Upsert(ConnectionsOf(Loaded(file)), SaveName(name), Record(url, now, now))),
                Some(SaveName(name))))
              && action == Some(Dispatch(choice, url, pathExists))
  {
    if url == "" {
      return None, None;
    }
    var saveAs := SaveName(name);
    var config := new Config.Load(file);
    config.SaveConnection(url, saveAs, now);
    written := Some(config.ToDocument());
    var a := Connect(choice, url, pathExists);
    action := Some(a);
  }

  /** Option 2, "connect to a saved session", given the number typed. With no
      saved connections or an out-of-range number nothing is written and no
      connection is tried. Otherwise the chosen entry's `last_used` becomes
      `now`, the rest of the document is written back unchanged, and its URL
      is opened with the method `choice`. */
  method SavedConnection(file: Option<Document>, number: int, choice: string,
                         now: real, pathExists: string -> bool)
    returns (written: Option<Document>, outcome: Selection, action: Option<Action>)
    requires file.Some? ==> ValidDocument(file.value)
    ensures outcome.Selected? <==> written.Some?
    ensures outcome.Selected? <==> action.Some?
    ensures ConnectionsOf(Loaded(file)).keys == [] ==> outcome == NoConnections
    ensures (ConnectionsOf(Loaded(file)).keys != [] && Pick(ConnectionsOf(Loaded(file)), number).None?)
              ==> outcome == InvalidNumber
    ensures Pick(ConnectionsOf(Loaded(file)), number).Some? ==> outcome.Selected?
    ensures outcome.Selected? ==>
              var t := ConnectionsOf(Loaded(file));
              Pick(t, number) == Some(outcome.name)
              && outcome.url == t.entries[outcome.name].url
              && written == Some(Document(Some(Touch(t, outcome.name, now)), Loaded(file).lastConnection))
              && action == Some(Dispatch(choice, outcome.url, pathExists))
  {
    var config := new Config.Load(file);
    outcome := config.SelectSaved(number, now);
    if !outcome.Selected? {
      return None, outcome, None;
    }
    written := Some(config.ToDocument());
    var a := Connect(choice, outcome.url, pathExists);
    action := Some(a);
  }

  /** Option 5, "open in the browser": a non-empty URL is opened whole; an
      empty one does nothing. Nothing is saved either way. */
  function BrowserOption(url: string): (action: Option<Action>)
    ensures action.Some? <==> url != ""
    ensures action.Some? ==> action.value.OpenInBrowser? && action.value.url == url
  {
    if url != "" then Some(OpenInBrowser(url)) else None
  }
}
