# flask-automation utilities, modelled in Dafny

`utils.dfy` (module `Utils`) models `automation/utils.py`, the shared helpers of the
UIS Automation Flask microservices:

- `check_auth`: the username/password comparison behind the HTTP basic-auth
  decorator. The configured credentials are the names `basic_auth_username` and
  `basic_auth_password` imported from a `secrets` module. `from secrets import a, b`
  binds the names one at a time. When it fails, the `except ImportError: pass` leaves
  the names imported before the failing one bound and the rest unbound. So the
  username can be bound while the password is not. Each name is an `Option<string>`
  parameter. A missing name raises `NameError` when it is read. Because of Python's
  short-circuit `and`, a missing password name is only read after the username matched.
  The combination "password bound, username unbound" cannot arise from the import. The
  model allows it for generality, and there it raises `NameError` like any unbound
  username.
- `json_serial`: the fallback JSON serializer. It renders a `datetime` (its
  `isoformat()` text is a field of the argument) and raises `TypeError` for everything else.
- `dictionarize`: turns a DB-API result set into `{'results': [...]}`, plus a
  `'more'` flag in page mode. The cursor is given as two values: its `description`
  (a sequence of `Column`, of which only the name, item 0, is read) and the rows
  `fetchall()` returns (`seq<seq<V>>` for any cell type `V`). The returned dictionary
  is a `map<string, Entry<V>>`. An `Entry` is either the `Results` list or the `More`
  flag. `page_size` is `Option<int>`, and its truthiness follows Python: `None` and `0`
  are falsy.

`dictionarize` is modelled twice:
- `Dictionarized` is a closed-form specification function.
- `Dictionarize` is a method that follows the source's loop statement by statement. It
  initialises `'more'` to False, then skips each row past the page (setting `'more'` to
  True) or builds it and appends it to `'results'`.
- The inner `build` is the method `Build`. Its index loop is proved to produce
  `RowMap`, the reference mapping: each column name is bound to the value at its last
  position.

These edge cases of the code are stated explicitly:
- A row shorter than the description raises `IndexError`, but only if that row is
  actually built. Short rows past the page are never read.
- Row values past the description's length are ignored.
- A duplicated column name keeps the value of its last position.
- A negative `page_size` is truthy: no row is kept, nothing can raise, and `'more'` is
  True exactly when any row was fetched.

## Model

| member | source | states |
|---|---|---|
| `Utils.CheckAuth` | automation/utils.py:5-13 | The result is True exactly when both names are bound and equal the given username and password. It raises NameError exactly when the username name is unbound, or when the username matched and the password name is unbound. |
| `Utils.CheckAuthAcceptsExactlyTheConfiguredPair` | automation/utils.py:11-13 | When both credentials are configured, the check never raises, and it accepts a pair if and only if that pair is the configured one. |
| `Utils.JsonSerial` | automation/utils.py:31-36 | Raises TypeError exactly for arguments that are not datetimes. A datetime gives its ISO text. |
| `Utils.LastIndex` | automation/utils.py:53-54 | For a name in the description, returns a position carrying that name such that no later position carries it. That position's assignment is the one that wins. |
| `Utils.RowMapMeaning` | automation/utils.py:51-54 | A row's mapping has exactly the column names as keys. A column whose name does not occur later maps to the row's value at that column position. |
| `Utils.TrailingValuesIgnored` | automation/utils.py:53-54 | A row's values past the description's length do not affect its mapping. |
| `Utils.RowMapExtend` | automation/utils.py:53-54 | Assigning `name[i] := row[i]` to the mapping of the first i columns gives the mapping of the first i+1 columns. This is the step of `build`'s index loop. |
| `Utils.Build` | automation/utils.py:51-55 | Raises IndexError exactly when the row is shorter than the description. Otherwise the map filled by the index loop equals `RowMap`. |
| `Utils.KeptCount` | automation/utils.py:60-65 | The number of kept rows is at most the number fetched. A row index falls below it exactly when the page size is falsy or the index is below the page size. |
| `Utils.DictionarizedStep` | automation/utils.py:60-67 | One iteration of the row loop at a row past a truthy page size only sets `'more'` to True and leaves `'results'` unchanged, so a True flag stays True. Any other row raises IndexError when it is short, and otherwise has its mapping appended at the end of `'results'`. |
| `Utils.ErrorPersists` | automation/utils.py:51-67 | An IndexError raised on some prefix of the rows is the outcome of the whole call. |
| `Utils.Dictionarize` | automation/utils.py:39-69 | The loop-built dictionary, or the IndexError it raises, equals the closed-form specification `Dictionarized` for every description, row list and page size. |
| `Utils.ZeroPageSizeIsNoPaging` | automation/utils.py:57-61 | `page_size = 0` behaves exactly like `None`. |
| `Utils.UnpagedKeepsEveryRow` | automation/utils.py:48-67 | With a falsy page size, the call succeeds exactly when every row covers the description. On success the keys are exactly `{'results'}` (no `'more'`), and `'results'` has one entry per row, in order, each that row's mapping. |
| `Utils.PageKeepsLeadingRows` | automation/utils.py:60-65 | With a positive page size p, the call succeeds exactly when the first min(len(rows), p) rows cover the description. On success `'results'` holds exactly those rows' mappings, in their original order. |
| `Utils.MoreFlagMeansRowsDropped` | automation/utils.py:57-63 | With a truthy page size p, `'more'` is present and is True exactly when there are more than p rows and at least one row. |
| `Utils.OutputKeys` | automation/utils.py:48-58 | The result always has `'results'` holding a list. It has `'more'` exactly in page mode, and it has no other key. |
| `Utils.FailsExactlyOnShortKeptRow` | automation/utils.py:51-67 | The call raises IndexError if and only if some kept row is shorter than the description. It raises no other error. |
| `Utils.RowsBeyondPageOnlySetMore` | automation/utils.py:61-63 | Once a positive page is full, further fetched rows change neither the outcome nor `'results'`. `'more'` then records whether there are more than p rows, and a True flag stays True. |
| `Utils.NegativePageSizeKeepsNothing` | automation/utils.py:57-63 | A negative page size returns an empty `'results'`, never raises, and sets `'more'` exactly when any row was fetched. |

## Left out

- `requires_auth` and `authenticate` (automation/utils.py:15-29): Flask request, response and decorator wiring. Only the credential check they call is modelled.
- Loading of `secrets` (automation/utils.py:5-8): each configured name is a parameter, either unbound or bound to a string. The import machinery is not modelled.
- `JsonSerial`: the text `datetime.isoformat()` produces is a library call. It is carried as a field of the argument, not computed. Subclasses of `datetime` count as `DateTimeObject`.
- The cursor object and database I/O: the cursor's `description` and the rows `fetchall()` returns are plain inputs. A `description` of `None` (a statement with no result set) and failures of `fetchall()` itself are not modelled.
- `page_size` values that are neither `None` nor an integer (floats, strings) are not modelled.
- `Build`: in the source, `build` also appends the row's mapping to `json_result['results']`. In the model, `Build` returns the mapping and `Dictionarize` appends it. When `build` raises, the partly filled dictionary is lost with the exception, so the model returns only the error.
- Insertion order of Python dicts is not modelled: the model's `map`s are unordered. In `temp_result` a repeated column name keeps the position of its first occurrence but the value of its last, and `json_result` lists `'results'` before `'more'`. No code in the module depends on this order.
- setup.py: packaging metadata, with no logic.
