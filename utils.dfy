/** A model of automation/utils.py of flask-automation: the credential check behind
    the basic-auth decorator, the JSON fallback serializer, and `dictionarize`, which
    turns a DB-API query result (column descriptors plus fetched rows) into the
    mapping `{'results': [...], 'more': ...}` that the microservices return. */
module Utils {

  /** The Python exceptions the modelled functions can raise. */
  datatype Error = IndexError | TypeError | NameError

  datatype Option<+T> = None | Some(value: T)

  /** A value, or the exception that was raised instead. */
  datatype Result<+T> = Ok(value: T) | Err(error: Error)

  // ---------------------------------------------------------------------------
  // check_auth
  // ---------------------------------------------------------------------------

  /** `check_auth(username, password)`. The configured credentials are the names
      `basic_auth_username` and `basic_auth_password` imported from `secrets`; the
      import binds them one at a time, so when it fails the names before the failing
      one stay bound and the rest are unbound (None here). Reading an unbound name
      raises NameError. Python's `and` only reads the password once the
      username has matched. */
  function CheckAuth(username: string, password: string,
                     configuredUsername: Option<string>, configuredPassword: Option<string>): (r: Result<bool>)
    ensures r == Ok(true) <==> configuredUsername == Some(username) && configuredPassword == Some(password)
    ensures r.Err? <==> configuredUsername.None? || (configuredUsername == Some(username) && configuredPassword.None?)
    ensures r.Err? ==> r.error == NameError
  {
    match configuredUsername
    case None => Err(NameError)
    case Some(expectedUsername) =>
      if username != expectedUsername then Ok(false)
      else
        match configuredPassword
        case None => Err(NameError)
        case Some(expectedPassword) => Ok(password == expectedPassword)
  }

  /** With both credentials configured, exactly one username/password pair is accepted
      and the check never raises. */
  lemma CheckAuthAcceptsExactlyTheConfiguredPair(configuredUsername: string, configuredPassword: string)
    ensures forall u: string, p: string ::
      CheckAuth(u, p, Some(configuredUsername), Some(configuredPassword)).Ok?
    ensures forall u: string, p: string ::
      CheckAuth(u, p, Some(configuredUsername), Some(configuredPassword)) == Ok(true) <==> u == configuredUsername && p == configuredPassword
  {
  }

  // ---------------------------------------------------------------------------
  // json_serial
  // ---------------------------------------------------------------------------

  /** The argument handed to the fallback serializer: either a `datetime` instance,
      carrying the text its `isoformat()` produces, or some other object. */
  datatype PyObject = DateTimeObject(isoText: string) | OtherObject(typeName: string)

  /** `json_serial(obj)`: a datetime is rendered by `isoformat()`; every other object
      raises TypeError("Type not serializable"). */
  function JsonSerial(obj: PyObject): (r: Result<string>)
    ensures r.Err? <==> !obj.DateTimeObject?
    ensures r.Err? ==> r.error == TypeError
    ensures r.Ok? ==> r.value == obj.isoText
  {
    match obj
    case DateTimeObject(isoText) => Ok(isoText)
    case OtherObject(_) => Err(TypeError)
  }

  // ---------------------------------------------------------------------------
  // dictionarize: one row
  // ---------------------------------------------------------------------------

  /** A DB-API column descriptor (a 7-item sequence); only item 0, the name, is read. */
  datatype Column = Column(name: string)

  /** The column names of a description. */
  function Names(description: seq<Column>): set<string>
  {
    set i | 0 <= i < |description| :: description[i].name
  }

  /** The last position at which a column name occurs: when names repeat, that is the
      position whose assignment `temp_result[name] = ...` happens last. */
  function LastIndex(description: seq<Column>, name: string): (j: nat)
    requires name in Names(description)
    ensures j < |description| && description[j].name == name
    ensures forall k :: j < k < |description| ==> description[k].name != name
    decreases |description|
  {
    var n := |description| - 1;
    if description[n].name == name then n
    else
      assert name in Names(description[..n]) by {
        var i :| 0 <= i < |description| && description[i].name == name;
        assert description[..n][i] == description[i];
      }
      LastIndex(description[..n], name)
  }

  /** The mapping `build` produces for a row that has a value for every column:
      each name is bound to the value at the last position carrying that name. This
      is the reference the loop in Build is proved against. */
  function RowMap<V>(description: seq<Column>, row: seq<V>): map<string, V>
    requires |description| <= |row|
  {
    map name | name in Names(description) :: row[LastIndex(description, name)]
  }

  /** What a row's mapping holds: exactly the column names as keys; the value at a
      column whose name does not occur later is the row's value at that column; a
      repeated name holds the value of its last occurrence. */
  lemma RowMapMeaning<V>(description: seq<Column>, row: seq<V>)
    requires |description| <= |row|
    ensures RowMap(description, row).Keys == Names(description)
    ensures forall j :: 0 <= j < |description| ==> description[j].name in RowMap(description, row)
    ensures forall j :: (0 <= j < |description| && forall k :: j < k < |description| ==> description[k].name != description[j].name)
                          ==> RowMap(description, row)[description[j].name] == row[j]
  {
    forall j | 0 <= j < |description| && (forall k :: j < k < |description| ==> description[k].name != description[j].name)
      ensures RowMap(description, row)[description[j].name] == row[j]
    {
      var name := description[j].name;
      assert name in Names(description);
      var last := LastIndex(description, name);
      assert last == j;
    }
  }

  /** Values of a row past the description's length never reach the mapping. */
  lemma TrailingValuesIgnored<V>(description: seq<Column>, row: seq<V>)
    requires |description| <= |row|
    ensures RowMap(description, row) == RowMap(description, row[..|description|])
  {
    forall name | name in Names(description)
      ensures RowMap(description, row)[name] == RowMap(description, row[..|description|])[name]
    {
      var j := LastIndex(description, name);
      assert row[..|description|][j] == row[j];
    }
  }

  /** One more step of `build`'s index loop: assigning the value at position i on top
      of the mapping of the first i columns gives the mapping of the first i+1. */
  lemma RowMapExtend<V>(description: seq<Column>, row: seq<V>, i: nat)
    requires i < |description| && i < |row|
    ensures RowMap(description[..i + 1], row) == RowMap(description[..i], row)[description[i].name := row[i]]
  {
    var longer, shorter := description[..i + 1], description[..i];
    assert longer[..i] == shorter;
    assert longer[i] == description[i];
    assert Names(longer) == Names(shorter) + {description[i].name} by {
      forall name | name in Names(longer) ensures name in Names(shorter) + {description[i].name} {
        var k :| 0 <= k < |longer| && longer[k].name == name;
        if k < i { assert shorter[k] == longer[k]; }
      }
      forall name | name in Names(shorter) ensures name in Names(longer) {
        var k :| 0 <= k < |shorter| && shorter[k].name == name;
        assert longer[k] == shorter[k];
      }
      assert longer[i].name in Names(longer);
    }
    forall name | name in Names(longer) && name != description[i].name
      ensures LastIndex(longer, name) == LastIndex(shorter, name)
    {
    }
  }

  /** `build(a_result)` without its final append: fills `temp_result` by an index loop
      over the description, reading `a_result[i]`; a row shorter than the description
      raises IndexError. */
  method Build<V>(description: seq<Column>, row: seq<V>) returns (r: Result<map<string, V>>)
    ensures |row| < |description| ==> r == Err(IndexError)
    ensures |description| <= |row| ==> r == Ok(RowMap(description, row))
  {
    var tempResult: map<string, V> := map[];
    for i := 0 to |description|
      invariant i <= |row|
      invariant tempResult == RowMap(description[..i], row)
    {
      if i >= |row| {
        return Err(IndexError);
      }
      RowMapExtend(description, row, i);
      tempResult := tempResult[description[i].name := row[i]];
    }
    assert description[..|description|] == description;
    return Ok(tempResult);
  }

  // ---------------------------------------------------------------------------
  // dictionarize: the whole result set
  // ---------------------------------------------------------------------------

  /** The value of a key of the returned dictionary: the list under 'results' or the
      boolean under 'more'. */
  datatype Entry<V> = Results(rows: seq<map<string, V>>) | More(flag: bool)

  /** The dictionary `json_result`. */
  type Output<V> = map<string, Entry<V>>

  /** Python truthiness of `page_size` (None or an integer): None and 0 are falsy. */
  predicate Truthy(pageSize: Option<int>)
  {
    pageSize.Some? && pageSize.value != 0
  }

  /** Whether the row at `index` is built: the page size is falsy, or `index` is below it. */
  predicate Kept(index: nat, pageSize: Option<int>)
  {
    !Truthy(pageSize) || index < pageSize.value
  }

  /** How many leading rows are kept out of `total`: exactly those whose index is Kept. */
  function KeptCount(total: nat, pageSize: Option<int>): (n: nat)
    ensures n <= total
    ensures forall index: nat :: index < total ==> (index < n <==> Kept(index, pageSize))
  {
    if !Truthy(pageSize) then total
    else if pageSize.value <= 0 then 0
    else if pageSize.value < total then pageSize.value
    else total
  }

  /** Every row has a value for every column of the description. */
  predicate RowsCover<V>(description: seq<Column>, rows: seq<seq<V>>)
  {
    forall i :: 0 <= i < |rows| ==> |description| <= |rows[i]|
  }

  /** The row mappings of a list of rows, in order. The ensures clauses only spell out
      the comprehension; they are kept as a proof aid, because the map equalities in
      DictionarizedStep and the lemmas below rely on them. */
  function MapRows<V>(description: seq<Column>, rows: seq<seq<V>>): (r: seq<map<string, V>>)
    requires RowsCover(description, rows)
    ensures |r| == |rows|
    ensures forall i :: 0 <= i < |rows| ==> r[i] == RowMap(description, rows[i])
  {
    seq(|rows|, i requires 0 <= i < |rows| => RowMap(description, rows[i]))
  }

  /** What `dictionarize(cursor, page_size)` returns, stated in closed form: the kept
      rows are the first KeptCount ones; if any of them is shorter than the
      description, IndexError; otherwise 'results' lists their mappings in order and,
      with a truthy page size, 'more' says whether any row was dropped. */
  function Dictionarized<V>(description: seq<Column>, rows: seq<seq<V>>, pageSize: Option<int>): Result<Output<V>>
  {
    var kept := rows[..KeptCount(|rows|, pageSize)];
    if !RowsCover(description, kept) then Err(IndexError)
    else
      var results: Output<V> := map["results" := Results(MapRows(description, kept))];
      Ok(if Truthy(pageSize) then results["more" := More(|kept| < |rows|)] else results)
  }

  /** One iteration of the loop over the fetched rows: a row at an index at or past a
      truthy page size only sets 'more' to True and leaves 'results' alone; any other
      row is built and appended, or raises IndexError. */
  lemma DictionarizedStep<V>(description: seq<Column>, rows: seq<seq<V>>, index: nat, pageSize: Option<int>)
    requires index < |rows|
    requires Dictionarized(description, rows[..index], pageSize).Ok?
    ensures var before := Dictionarized(description, rows[..index], pageSize).value;
            Dictionarized(description, rows[..index + 1], pageSize) ==
              if Truthy(pageSize) && index >= pageSize.value then
                Ok(before["more" := More(true)])
              else if |rows[index]| < |description| then
                Err(IndexError)
              else
                Ok(before["results" := Results(before["results"].rows + [RowMap(description, rows[index])])])
  {
    var s, t := rows[..index], rows[..index + 1];
    assert t[..index] == s;
    var n, n' := KeptCount(index, pageSize), KeptCount(index + 1, pageSize);
    if Truthy(pageSize) && index >= pageSize.value {
      assert n' == n;
      assert t[..n'] == s[..n];
      var kept := s[..n];
      if RowsCover(description, kept) {
        var results: Output<V> := map["results" := Results(MapRows(description, kept))];
        assert Dictionarized(description, s, pageSize) == Ok(results["more" := More(n < index)]);
        assert Dictionarized(description, t, pageSize) == Ok(results["more" := More(true)]);
        assert results["more" := More(n < index)]["more" := More(true)] == results["more" := More(true)];
      }
    } else {
      assert n == index && n' == index + 1;
      assert s[..n] == s && t[..n'] == t;
      assert t == s + [rows[index]];
      if |rows[index]| >= |description| {
        assert RowsCover(description, t);
        var before := Dictionarized(description, s, pageSize).value;
        var extended := MapRows(description, s) + [RowMap(description, rows[index])];
        assert MapRows(description, t) == extended;
        var plain: Output<V> := map["results" := Results(extended)];
        if Truthy(pageSize) {
          assert before == map["results" := Results(MapRows(description, s)), "more" := More(false)];
          assert before["results" := Results(before["results"].rows + [RowMap(description, rows[index])])] == plain["more" := More(false)];
          assert Dictionarized(description, t, pageSize) == Ok(plain["more" := More(false)]);
        } else {
          assert before == map["results" := Results(MapRows(description, s))];
          assert before["results" := Results(before["results"].rows + [RowMap(description, rows[index])])] == plain;
          assert Dictionarized(description, t, pageSize) == Ok(plain);
        }
      } else {
        assert t[index] == rows[index];
      }
    }
  }

  /** An IndexError raised while processing some prefix of the rows is the result of
      the whole call. */
  lemma ErrorPersists<V>(description: seq<Column>, rows: seq<seq<V>>, index: nat, pageSize: Option<int>)
    requires index <= |rows|
    requires Dictionarized(description, rows[..index], pageSize).Err?
    ensures Dictionarized(description, rows, pageSize) == Err(IndexError)
  {
    var prefix := rows[..index];
    var n := KeptCount(index, pageSize);
    var i :| 0 <= i < n && |prefix[..n][i]| < |description|;
    assert prefix[..n][i] == rows[i];
    assert KeptCount(|rows|, pageSize) >= n;
    assert rows[..KeptCount(|rows|, pageSize)][i] == rows[i];
  }

  /** `dictionarize(cursor, page_size)`, with the cursor given as its description and
      the rows `fetchall()` returns. It follows the source step by step: 'more' is
      initialised to False for a truthy page size, then each row is either skipped
      (setting 'more' to True) or built and appended to 'results'. */
  method Dictionarize<V>(description: seq<Column>, rows: seq<seq<V>>, pageSize: Option<int>)
      returns (r: Result<Output<V>>)
    ensures r == Dictionarized(description, rows, pageSize)
  {
    var jsonResult: Output<V> := map["results" := Results([])];
    if Truthy(pageSize) {
      jsonResult := jsonResult["more" := More(false)];
    }
    assert rows[..0] == [];
    for index := 0 to |rows|
      invariant Dictionarized(description, rows[..index], pageSize) == Ok(jsonResult)
    {
      DictionarizedStep(description, rows, index, pageSize);
      if Truthy(pageSize) {
        if index >= pageSize.value {
          jsonResult := jsonResult["more" := More(true)];
        } else {
          var built := Build(description, rows[index]);
          if built.Err? {
            ErrorPersists(description, rows, index + 1, pageSize);
            return Err(built.error);
          }
          jsonResult := jsonResult["results" := Results(jsonResult["results"].rows + [built.value])];
        }
      } else {
        var built := Build(description, rows[index]);
        if built.Err? {
          ErrorPersists(description, rows, index + 1, pageSize);
          return Err(built.error);
        }
        jsonResult := jsonResult["results" := Results(jsonResult["results"].rows + [built.value])];
      }
    }
    assert rows[..|rows|] == rows;
    return Ok(jsonResult);
  }

  // ---------------------------------------------------------------------------
  // Properties of dictionarize
  // ---------------------------------------------------------------------------

  /** A page size of 0 is falsy: the call behaves exactly as with no page size. */
  lemma ZeroPageSizeIsNoPaging<V>(description: seq<Column>, rows: seq<seq<V>>)
    ensures Dictionarized(description, rows, Some(0)) == Dictionarized(description, rows, None)
  {
  }

  /** Without paging every fetched row is built, in order, and there is no 'more' key;
      the call raises IndexError exactly when some row is shorter than the description. */
  lemma UnpagedKeepsEveryRow<V>(description: seq<Column>, rows: seq<seq<V>>, pageSize: Option<int>)
    requires !Truthy(pageSize)
    ensures Dictionarized(description, rows, pageSize).Ok? <==> RowsCover(description, rows)
    ensures Dictionarized(description, rows, pageSize).Err? ==> Dictionarized(description, rows, pageSize).error == IndexError
    ensures Dictionarized(description, rows, pageSize).Ok? ==>
              var out := Dictionarized(description, rows, pageSize).value;
              && out.Keys == {"results"}
              && out["results"].Results?
              && |out["results"].rows| == |rows|
              && forall i :: 0 <= i < |rows| ==>
                   |description| <= |rows[i]| && out["results"].rows[i] == RowMap(description, rows[i])
  {
    assert rows[..|rows|] == rows;
  }

  /** With a positive page size p, 'results' holds the mappings of exactly the first
      min(|rows|, p) rows, in order, and only those rows can raise IndexError. */
  lemma PageKeepsLeadingRows<V>(description: seq<Column>, rows: seq<seq<V>>, p: int)
    requires p > 0
    ensures var n := if |rows| < p then |rows| else p;
            Dictionarized(description, rows, Some(p)).Ok? <==> (forall i :: 0 <= i < n ==> |description| <= |rows[i]|)
    ensures Dictionarized(description, rows, Some(p)).Ok? ==>
              var n := if |rows| < p then |rows| else p;
              var out := Dictionarized(description, rows, Some(p)).value;
              && out["results"].Results?
              && |out["results"].rows| == n
              && forall i :: 0 <= i < n ==>
                   |description| <= |rows[i]| && out["results"].rows[i] == RowMap(description, rows[i])
  {
    var n := if |rows| < p then |rows| else p;
    assert KeptCount(|rows|, Some(p)) == n;
    var kept := rows[..n];
    assert forall i :: 0 <= i < n ==> kept[i] == rows[i];
  }

  /** With a truthy page size p, 'more' is present and is True exactly when some row
      was dropped: when there are more than p rows (for a negative p, when there is
      any row at all). */
  lemma MoreFlagMeansRowsDropped<V>(description: seq<Column>, rows: seq<seq<V>>, p: int)
    requires p != 0
    requires Dictionarized(description, rows, Some(p)).Ok?
    ensures var out := Dictionarized(description, rows, Some(p)).value;
            "more" in out && out["more"] == More(|rows| > p && |rows| > 0)
  {
  }

  /** The returned dictionary has the key 'results', holding a list, and the key 'more'
      exactly in page mode, and no other key. */
  lemma OutputKeys<V>(description: seq<Column>, rows: seq<seq<V>>, pageSize: Option<int>)
    requires Dictionarized(description, rows, pageSize).Ok?
    ensures var out := Dictionarized(description, rows, pageSize).value;
            && out.Keys <= {"results", "more"}
            && "results" in out && out["results"].Results?
            && ("more" in out <==> Truthy(pageSize))
  {
  }

  /** The call raises IndexError exactly when a kept row is shorter than the
      description; short rows past the page are never read. */
  lemma FailsExactlyOnShortKeptRow<V>(description: seq<Column>, rows: seq<seq<V>>, pageSize: Option<int>)
    ensures Dictionarized(description, rows, pageSize).Err? <==>
              exists i :: 0 <= i < KeptCount(|rows|, pageSize) && |rows[i]| < |description|
    ensures Dictionarized(description, rows, pageSize).Err? ==> Dictionarized(description, rows, pageSize).error == IndexError
  {
    var n := KeptCount(|rows|, pageSize);
    var kept := rows[..n];
    assert forall i :: 0 <= i < n ==> kept[i] == rows[i];
  }

  /** Rows fetched once a positive page is full change nothing but the 'more' flag:
      the outcome and 'results' are those of the rows up to the page, and 'more' is
      True once any row past the page has been seen. */
  lemma RowsBeyondPageOnlySetMore<V>(description: seq<Column>, rows: seq<seq<V>>, extra: seq<seq<V>>, p: int)
    requires 0 < p <= |rows|
    ensures Dictionarized(description, rows + extra, Some(p)).Ok? == Dictionarized(description, rows, Some(p)).Ok?
    ensures Dictionarized(description, rows, Some(p)).Ok? ==>
              && Dictionarized(description, rows + extra, Some(p)).value["results"] == Dictionarized(description, rows, Some(p)).value["results"]
              && Dictionarized(description, rows + extra, Some(p)).value["more"] == More(|rows| + |extra| > p)
              && (Dictionarized(description, rows, Some(p)).value["more"] == More(true) ==>
                    Dictionarized(description, rows + extra, Some(p)).value["more"] == More(true))
  {
    assert KeptCount(|rows + extra|, Some(p)) == p == KeptCount(|rows|, Some(p));
    assert (rows + extra)[..p] == rows[..p];
  }

  /** A negative page size is truthy but keeps no row: nothing is built, so nothing
      can raise, and 'more' is True exactly when any row was fetched. */
  lemma NegativePageSizeKeepsNothing<V>(description: seq<Column>, rows: seq<seq<V>>, p: int)
    requires p < 0
    ensures Dictionarized(description, rows, Some(p)) == Ok(map["results" := Results([]), "more" := More(|rows| > 0)])
  {
    assert rows[..0] == [];
  }
}
