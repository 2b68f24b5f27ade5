# sshx client for Windows: a Dafny model

`pruebaVPS.py` is a small interactive client for sshx, a terminal-sharing
service. It keeps named sessions in a JSON configuration file
(`~/.sshx/config.json`). Each session has a URL, a creation `timestamp` and a
`last_used` time. The client can save a new session, re-open a saved one chosen
by its number in a listing, and connect in one of three ways: `sshx join
<id>` through WSL, the same command through Git Bash, or opening the URL in a
browser.

This project models the parts of that client that compute something:

- `strings.dfy` (module `Strings`): Python's `str.split` for a non-empty
  separator. It scans left to right and never lets two cuts overlap. Lemmas
  cover the round trip with `join` in both directions, pieces never containing
  the separator, and the one-piece case.
- `launch.dfy` (module `Launch`): the session id
  `url.split('/s/')[-1].split('#')[0]`, the WSL and Git Bash command lines built
  from it, the Git Bash path probe (a loop that keeps the first existing path),
  and the method switch of the menu. `os.path.exists` is the function parameter
  `pathExists`.
- `store.dfy` (module `Store`): the `connections` dictionary as an
  insertion-ordered table, plus `last_connection`. There are pure functions for
  the upsert done by `save_connection` and for the `last_used` update done when
  a session is selected, with lemmas about them. The class `Config` is the
  loaded configuration dictionary; its methods update it in place.
- `menu.dfy` (module `Menu`): menu options 1 (new URL), 2 (saved session) and 5
  (browser), each modelled as one pass of the menu loop. Option 1 with a
  non-empty URL and option 2 with a listed number load the document, update
  it, write it back and report which connection they start. Option 1 with an
  empty URL, and option 2 with no saved connection or an unlisted number,
  write nothing; option 5 touches no document.
  The file's contents are a parameter, `None` when the file does not exist.
  What `save_config` writes is a result, `None` when nothing is written. The
  clock (`time.time()`) is the parameter `now`.
- `wrappers.dfy` (module `Wrappers`): `Option`.

Behaviours of the code worth knowing, which the model follows:

- The session id is not "everything after the last `/s/`". It is the last piece
  of a left-to-right split, so `x/s/s/y` gives `s/y` (`Launch.SessionIdLeftmost`).
- A host named `s` is cut into: `https://s/s/tok#x` gives `s/tok`, because the
  first `/s/` starts at the second slash of `https://` (`Launch.SessionIdHostS`).
- A URL with no `/s/` is not rejected. The whole URL, up to its first `#`, is
  used as the id (`Launch.SessionIdWithoutMarker`).
- Saving under an existing name resets that entry's `timestamp` as well
  (`Store.SaveTwice`).
- Key order matters: the menu numbers sessions by insertion order. A re-saved
  name keeps its old place (`Store.Upsert`, `Store.PickMatchesListing`).
- Selecting a session cannot name a missing entry, because only listed numbers
  are accepted. An out-of-range number writes nothing
  (`Store.Config.SelectSaved`).
- A missing Git Bash is not an error value. The client prints a message and
  returns without building or running a command (`Launch.ConnectGitBash`).

## Model

| member | source | states |
|---|---|---|
| Strings.Split | pruebaVPS.py:137 | `s.split(sep)` always gives at least one piece; where it cuts is stated by `Strings.SplitFirstCut`, and the round trips with join below |
| Strings.SplitFirstCut | pruebaVPS.py:137 | the first cut is at the leftmost occurrence of `sep`: none starts inside the first piece, a single piece is the whole string, and otherwise `sep` follows the first piece and the other pieces are the split of the text after it |
| Strings.Join | pruebaVPS.py:137 | `sep.join(parts)` starts with the first part; it is the inverse of the split (`Strings.SplitJoin`, `Strings.JoinSplit`) |
| Strings.SplitJoin | pruebaVPS.py:137 | joining the pieces of `s.split(sep)` with `sep` gives back `s` |
| Strings.JoinSplit | pruebaVPS.py:137 | splitting the join of pieces that hold no first character of the separator gives back the pieces |
| Strings.SplitPiecesAvoidSep | pruebaVPS.py:137 | no piece of `s.split(sep)` contains `sep` |
| Strings.SplitFirstIsPrefix | pruebaVPS.py:137 | the first piece of a split is a prefix of the string |
| Strings.SplitSingle | pruebaVPS.py:137 | a split gives one piece exactly when `sep` does not occur, and that piece is the whole string |
| Strings.BeforeFirst | pruebaVPS.py:137 | the text before the first `c` is a prefix having no `c`, followed in the string by `c` unless it is the whole string |
| Strings.SplitCharFirst | pruebaVPS.py:137 | `s.split(c)[0]` is the text before the first `c` |
| Launch.SessionId | pruebaVPS.py:137 | the id is the text before the first `#` of the last piece of the split on `/s/` |
| Launch.SessionIdAvoidsMarkers | pruebaVPS.py:137 | for every URL, the session id contains neither `/s/` nor `#` |
| Launch.SessionIdOfEndpoint | pruebaVPS.py:136-137 | for `https://<domain>/s/<token>#<secret>` where the domain has no `/` and is not `s`, the token has no `#`, and `<token>#<secret>` holds no `/s/`, the id is exactly the token |
| Launch.SessionIdAfterMarker | pruebaVPS.py:136-137 | for `https://<domain>/s/<rest>` where the domain has no `/` and is not `s` and `rest` holds no `/s/`, the id is `rest` up to its first `#` |
| Launch.SessionIdOfEndpointNoSecret | pruebaVPS.py:136-137 | for `https://<domain>/s/<token>` where the domain has no `/` and is not `s` and the token has neither `#` nor `/s/`, the id is everything after `/s/` |
| Launch.SessionIdExample | pruebaVPS.py:136-137 | the id of `https://sshx.io/s/WlfhyC1F1t#kVTAZ6tyn1dY3G` is `WlfhyC1F1t` |
| Launch.SessionIdHostS | pruebaVPS.py:136-137 | for the host `s`, `https://s/s/<rest>` (no `/s/` in `s/<rest>`) gives `s/<rest>` up to its first `#`: the host is kept in the id |
| Launch.SessionIdLeftmost | pruebaVPS.py:137 | the split is left to right without overlaps: `x/s/s/y` gives `s/y` |
| Launch.SessionIdWithoutMarker | pruebaVPS.py:159 | a URL without `/s/` gives the text before its first `#`, or the whole URL when it has no `#` |
| Launch.WslCommand | pruebaVPS.py:141 | `wsl sshx join <id>` splits into exactly the words `wsl`, `sshx`, `join` and the id when the id has no space |
| Launch.GitBashCommand | pruebaVPS.py:179 | when path and id hold no `"`, the quoted path and `sshx join <id>` are the two quoted fields of the command |
| Launch.FirstExisting | pruebaVPS.py:162-171 | the result is absent exactly when no listed path exists, and otherwise is the first existing path in list order |
| Launch.FindGitBash | pruebaVPS.py:167-171 | the probe loop with `break` returns the first existing path, or none |
| Launch.GitBashAction | pruebaVPS.py:154-183 | the outcome is a command or "not found", and "not found" exactly when no listed path exists |
| Launch.ConnectGitBash | pruebaVPS.py:159-183 | with no existing path, no command is built; otherwise the command uses the first existing path and the session id |
| Launch.Dispatch | pruebaVPS.py:239-246 | choice 1 runs the WSL command of the id, 2 is the Git Bash outcome, exactly 3 opens the whole URL, and exactly the other choices are invalid |
| Launch.Connect | pruebaVPS.py:239-246 | choice 1 gives the WSL command, 2 the Git Bash outcome, 3 opens the full URL; only 1 and 2 run a command |
| Store.Upsert | pruebaVPS.py:86-87 | the entry for the name becomes the new record, other entries are unchanged, a new name is appended and existing keys keep their order, and keys stay unique |
| Store.Touch | pruebaVPS.py:268 | only the chosen entry changes; its `last_used` becomes `now`, its URL and `timestamp` stay, and the key order is unchanged |
| Store.Lookup | pruebaVPS.py:259-265 | on a well-formed table a record is found exactly for the listed names, and it is the record stored under the name |
| Store.Listing | pruebaVPS.py:257-259 | the i-th listed entry is the i-th key in insertion order with its record |
| Store.Pick | pruebaVPS.py:262-264 | a number selects a saved name exactly when `0 <= number - 1 < len(keys)`, and number n selects the n-th key in insertion order |
| Store.PickMatchesListing | pruebaVPS.py:257-264 | the number printed beside the i-th listed connection selects that connection |
| Store.PickNumbersEveryName | pruebaVPS.py:257-264 | every saved name is selectable by exactly one number |
| Store.SaveTwice | pruebaVPS.py:87-91 | saving twice under one name equals saving once with the second URL; the timestamp is the second save's |
| Store.SaveNewName | pruebaVPS.py:87 | saving a new name appends exactly that name to the key order |
| Store.SaveKeepsTimesOrdered | pruebaVPS.py:87-91 | a save keeps `timestamp <= last_used` for every entry |
| Store.TouchKeepsTimesOrdered | pruebaVPS.py:268 | a selection keeps `timestamp <= last_used` when the clock has not gone back before the entry's timestamp |
| Store.Loaded | pruebaVPS.py:99-104 | a missing file loads as `{}`, an existing one as its contents |
| Store.ConnectionsOf | pruebaVPS.py:86 | a document without `connections` gives the empty table, one with it gives that table unchanged |
| Store.MissingConnectionsAreEmpty | pruebaVPS.py:113-118 | with no file or no `connections` key, nothing is listed and no number selects anything |
| Store.Config.Load | pruebaVPS.py:84 | the in-memory configuration is the loaded document |
| Store.Config.SaveConnection | pruebaVPS.py:82-96 | the table becomes the upsert of a record with url and both times equal to `now`; `last_connection` becomes the name |
| Store.Config.SelectSaved | pruebaVPS.py:249-270 | with no connections or an invalid number nothing changes; a listed number always selects its entry, and then only that entry's `last_used` is set; `last_connection` is untouched |
| Menu.SaveName | pruebaVPS.py:226-228 | an empty name becomes `default`, any other name is kept |
| Menu.NewConnection | pruebaVPS.py:220-246 | an empty URL saves nothing and connects nothing; otherwise the written document holds the upserted table and `last_connection`, and the chosen method's action follows |
| Menu.SavedConnection | pruebaVPS.py:248-284 | a listed number always leads to a write and a connection, any other number to neither; the written document has only that entry's `last_used` changed and the same `last_connection`, and the method gets that entry's URL |
| Menu.BrowserOption | pruebaVPS.py:296-299 | a non-empty URL is opened whole in the browser, an empty one does nothing |

## Left out

- JSON reading and writing (`open`, `json.load`, `json.dump`, `mkdir`): the
  document is an abstract value. A file that exists but cannot be parsed is not
  modelled; the source lets the exception propagate.
- Unknown fields, in the document or in a record, are not carried by the
  model's `Document` and `Record` types. The source keeps them when it writes
  the document back. A record missing `url` or `last_used`, which makes the
  source raise `KeyError`, is not modelled either.
- `subprocess.run`, `webbrowser.open`, `urllib.request.urlopen` (`download_sshx`):
  foreign calls. A connection is reported as the command line that would be run,
  or as the URL that would be opened.
- `KeyboardInterrupt` and other exceptions around the launches. These only
  choose a message to print.
- `input`, `print`, `.strip()` on the answers, and `int()` on the typed number.
  Answers are parameters, taken as already stripped and parsed. The
  `ValueError` branch of option 2 (text that is not a number) therefore is not
  modelled.
- The `while True` menu loop itself, and options 3 (listing, which is
  `Store.Listing`), 4 (`download_sshx`, only printing) and 0 (exit).
- `interactive_menu`, option 1 with an unknown method: the source prints
  "invalid option" and option 2 prints nothing. Both are `InvalidMethod` here.
- `check_platform`, `main` and `time.strftime` formatting: platform queries and
  display only.
- The clock: `now` is a parameter, and the two `time.time()` calls of
  `save_connection` are modelled as one value. Times are `real`. The source's
  floating-point rounding is not modelled.
- Store.TouchKeepsTimesOrdered: needs the clock not to have gone back before
  the entry's `timestamp`. Nothing in the source ensures that.
- `quick_start.py`: environment setup for Colab. It only sequences shell
  commands and a backup thread, and is not part of this model.
