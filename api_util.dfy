/** Vetting of API request arguments against the arguments an endpoint declares, in
    the current form (with type conversion and an optional pair of device arguments) and
    in the legacy form (presence only). */
module ApiUtil {
  import opened Outcomes

  /** A request value, by its Python type. */
  datatype Value = Str(text: string) | Int(number: int) | Bool(flag: bool)

  function TypeName(v: Value): string
  {
    match v
    case Str(_) => "str"
    case Int(_) => "int"
    case Bool(_) => "bool"
  }

  /** A declared argument: whether it is required, the name of the type its value is
      converted to, and the converted value once set. */
  datatype ApiArgument = ApiArgument(required: bool, argType: string, argValue: Option<Value>)

  /** The declared arguments as an insertion-ordered dictionary. */
  datatype ArgTable = ArgTable(order: seq<string>, entries: map<string, ApiArgument>)

  predicate Distinct(s: seq<string>)
  {
    forall i, j | 0 <= i < j < |s| :: s[i] != s[j]
  }

  /** The key order lists every key once. */
  predicate WellFormed(t: ArgTable)
  {
    && Distinct(t.order)
    && (forall i | 0 <= i < |t.order| :: t.order[i] in t.entries)
    && (forall k | k in t.entries :: k in t.order)
  }

  /** `APIresult` without communication data. */
  datatype ApiResult = ApiResult(status: bool, exception: string)

  /** Converting a value to a declared type: `arg_type(value)`, or None where that
      raises ValueError. */
  type Converter = (string, Value) -> Option<Value>

  function MissingMessage(name: string): string
  {
    "Expected argument '" + name + "' not found in request."
  }

  function TypeMessage(name: string, argType: string, found: Value): string
  {
    "Expected '" + name + "' to have type <class '" + argType + "'> not <class '" + TypeName(found) + "'>."
  }

  // ---------------------------------------------------------------------------
  // Adding the device arguments

  /** `dict(table, **{key: value})`: a key already present keeps its place and takes the
      new value; a new key goes last. */
  function Put(t: ArgTable, key: string, a: ApiArgument): (r: ArgTable)
    requires WellFormed(t)
    ensures WellFormed(r)
    ensures r.entries == t.entries[key := a]
  {
    if key in t.entries then ArgTable(t.order, t.entries[key := a])
    else ArgTable(t.order + [key], t.entries[key := a])
  }

  const DEVICE_ARGUMENT := ApiArgument(true, "str", None)

  /** The declared arguments, with `identity` and `connection` added as required strings
      when a device is being added. */
  function Prepared(t: ArgTable, addDevice: bool): (r: ArgTable)
    requires WellFormed(t)
    ensures WellFormed(r)
  {
    if addDevice then Put(Put(t, "identity", DEVICE_ARGUMENT), "connection", DEVICE_ARGUMENT) else t
  }

  /** Adding a device makes a new table: the caller's arguments are all still there,
      except that `identity` and `connection` are now the required string arguments, and
      nothing else is added. The caller's own table is a separate value and is untouched. */
  lemma PreparedAddsDeviceArguments(t: ArgTable)
    requires WellFormed(t)
    ensures Prepared(t, true).entries.Keys == t.entries.Keys + {"identity", "connection"}
    ensures Prepared(t, true).entries["identity"] == DEVICE_ARGUMENT
    ensures Prepared(t, true).entries["connection"] == DEVICE_ARGUMENT
    ensures forall k | k in t.entries && k != "identity" && k != "connection" :: Prepared(t, true).entries[k] == t.entries[k]
    ensures Prepared(t, false) == t
  {
  }

  // ---------------------------------------------------------------------------
  // The current check

  /** Every argument from position `i` to position `j` is accepted. */
  predicate AcceptedThrough(t: ArgTable, found: map<string, Value>, convert: Converter, i: nat, j: nat)
    requires WellFormed(t) && j < |t.order|
  {
    forall m | i <= m <= j :: Accepted(t.entries[t.order[m]], t.order[m], found, convert)
  }

  /** The check over the keys from position `i` on: a missing required argument or a
      failed conversion stops it; an argument that is not required is skipped. */
  function Vet(t: ArgTable, found: map<string, Value>, convert: Converter, i: nat): (ApiResult, ArgTable)
    requires WellFormed(t) && i <= |t.order|
    decreases |t.order| - i
  {
    if i == |t.order| then (ApiResult(true, ""), t)
    else
      var name := t.order[i];
      var a := t.entries[name];
      if name !in found && a.required then (ApiResult(false, MissingMessage(name)), t)
      else if !a.required then Vet(t, found, convert, i + 1)
      else match convert(a.argType, found[name])
        case None => (ApiResult(false, TypeMessage(name, a.argType, found[name])), t)
        case Some(v) => Vet(ArgTable(t.order, t.entries[name := a.(argValue := Some(v))]), found, convert, i + 1)
  }

  /** A required argument that is present and converts. */
  predicate Accepted(a: ApiArgument, name: string, found: map<string, Value>, convert: Converter)
  {
    a.required ==> name in found && convert(a.argType, found[name]).Some?
  }

  /** `check_required_args`: vet the arguments in key order, storing each required
      argument's converted value. */
  method CheckRequiredArgs(declared: ArgTable, found: map<string, Value>, addDevice: bool, convert: Converter)
    returns (result: ApiResult, arguments: ArgTable)
    requires WellFormed(declared)
    ensures (result, arguments) == Vet(Prepared(declared, addDevice), found, convert, 0)
  {
    arguments := Prepared(declared, addDevice);
    ghost var start := arguments;
    var i := 0;
    while i < |arguments.order|
      invariant i <= |arguments.order| && arguments.order == start.order && WellFormed(arguments)
      invariant Vet(arguments, found, convert, i) == Vet(start, found, convert, 0)
      decreases |arguments.order| - i
    {
      var name := arguments.order[i];
      var a := arguments.entries[name];
      if name !in found && a.required {
        return ApiResult(false, MissingMessage(name)), arguments;
      } else if !a.required {
        i := i + 1;
        continue;
      }
      var converted := convert(a.argType, found[name]);
      if converted.None? {
        return ApiResult(false, TypeMessage(name, a.argType, found[name])), arguments;
      }
      ReplaceKeeps(arguments, i, a.(argValue := converted));
      arguments := ArgTable(arguments.order, arguments.entries[name := a.(argValue := converted)]);
      i := i + 1;
    }
    return ApiResult(true, ""), arguments;
  }

  /** The value a required argument is given: its conversion. */
  function Converted(a: ApiArgument, name: string, found: map<string, Value>, convert: Converter): ApiArgument
    requires name in found
  {
    a.(argValue := convert(a.argType, found[name]))
  }

  /** Replacing the argument at one position keeps the table well formed, its keys, and
      every other argument. */
  lemma ReplaceKeeps(t: ArgTable, i: nat, a: ApiArgument)
    requires WellFormed(t) && i < |t.order|
    ensures var next := ArgTable(t.order, t.entries[t.order[i] := a]);
            && WellFormed(next) && next.entries.Keys == t.entries.Keys
            && forall j | 0 <= j < |t.order| && j != i :: next.entries[t.order[j]] == t.entries[t.order[j]]
  {
    var next := ArgTable(t.order, t.entries[t.order[i] := a]);
    forall j | 0 <= j < |t.order| && j != i ensures next.entries[t.order[j]] == t.entries[t.order[j]] {
      assert t.order[j] != t.order[i];
    }
  }

  /** The check keeps the keys and their order and leaves the arguments before position
      `i` as they were. */
  lemma {:induction false} VetKeeps(t: ArgTable, found: map<string, Value>, convert: Converter, i: nat)
    requires WellFormed(t) && i <= |t.order|
    decreases |t.order| - i
    ensures var u := Vet(t, found, convert, i).1;
            && u.order == t.order && u.entries.Keys == t.entries.Keys
            && (forall j | 0 <= j < i :: u.entries[t.order[j]] == t.entries[t.order[j]])
  {
    if i < |t.order| {
      var name := t.order[i];
      var a := t.entries[name];
      if name !in found && a.required {
      } else if !a.required {
        assert Vet(t, found, convert, i) == Vet(t, found, convert, i + 1);
        VetKeeps(t, found, convert, i + 1);
      } else if convert(a.argType, found[name]).Some? {
        var next := ArgTable(t.order, t.entries[name := Converted(a, name, found, convert)]);
        ReplaceKeeps(t, i, Converted(a, name, found, convert));
        assert Vet(t, found, convert, i) == Vet(next, found, convert, i + 1);
        VetKeeps(next, found, convert, i + 1);
      }
    }
  }

  /** The check never touches an argument that is not required, even when the request
      has it. */
  lemma {:induction false} VetSkipsOptional(t: ArgTable, found: map<string, Value>, convert: Converter, i: nat)
    requires WellFormed(t) && i <= |t.order|
    decreases |t.order| - i
    ensures var u := Vet(t, found, convert, i).1;
            && u.entries.Keys == t.entries.Keys
            && forall j | i <= j < |t.order| && !t.entries[t.order[j]].required :: u.entries[t.order[j]] == t.entries[t.order[j]]
  {
    VetKeeps(t, found, convert, i);
    if i < |t.order| {
      var name := t.order[i];
      var a := t.entries[name];
      if name !in found && a.required {
      } else if !a.required {
        assert Vet(t, found, convert, i) == Vet(t, found, convert, i + 1);
        VetKeeps(t, found, convert, i + 1);
        VetSkipsOptional(t, found, convert, i + 1);
      } else if convert(a.argType, found[name]).Some? {
        var next := ArgTable(t.order, t.entries[name := Converted(a, name, found, convert)]);
        ReplaceKeeps(t, i, Converted(a, name, found, convert));
        var u := Vet(t, found, convert, i).1;
        assert u == Vet(next, found, convert, i + 1).1;
        VetSkipsOptional(next, found, convert, i + 1);
        forall j | i <= j < |t.order| && !t.entries[t.order[j]].required
          ensures u.entries[t.order[j]] == t.entries[t.order[j]]
        {
          assert j != i;
        }
      }
    }
  }

  /** The check succeeds exactly when every remaining required argument is present and
      converts. */
  lemma {:induction false} VetStatus(t: ArgTable, found: map<string, Value>, convert: Converter, i: nat)
    requires WellFormed(t) && i <= |t.order|
    decreases |t.order| - i
    ensures (Vet(t, found, convert, i).0.status)
              <==> forall j | i <= j < |t.order| :: Accepted(t.entries[t.order[j]], t.order[j], found, convert)
  {
    if i < |t.order| {
      var name := t.order[i];
      var a := t.entries[name];
      if name !in found && a.required {
      } else if !a.required {
        VetStatus(t, found, convert, i + 1);
      } else if convert(a.argType, found[name]).Some? {
        var next := ArgTable(t.order, t.entries[name := Converted(a, name, found, convert)]);
        VetStatus(next, found, convert, i + 1);
        forall j | i < j < |t.order| ensures next.entries[t.order[j]] == t.entries[t.order[j]] {
          assert t.order[j] != name;
        }
      }
    }
  }

  /** In `u`, every required argument of `t` from position `i` up to one the check
      rejects holds its converted value. */
  predicate StoredFrom(t: ArgTable, u: ArgTable, found: map<string, Value>, convert: Converter, i: nat)
    requires WellFormed(t) && u.entries.Keys == t.entries.Keys
  {
    forall j | i <= j < |t.order| && t.entries[t.order[j]].required && AcceptedThrough(t, found, convert, i, j) ::
      t.order[j] in found && u.entries[t.order[j]] == Converted(t.entries[t.order[j]], t.order[j], found, convert)
  }

  /** Every required argument from position `i` up to one the check rejects holds its
      converted value afterwards, whether the check then succeeds or fails: values stored
      before a failure persist. */
  lemma {:induction false} VetStores(t: ArgTable, found: map<string, Value>, convert: Converter, i: nat)
    requires WellFormed(t) && i <= |t.order|
    decreases |t.order| - i
    ensures Vet(t, found, convert, i).1.entries.Keys == t.entries.Keys
    ensures StoredFrom(t, Vet(t, found, convert, i).1, found, convert, i)
  {
    VetKeeps(t, found, convert, i);
    if i < |t.order| {
      var name := t.order[i];
      var a := t.entries[name];
      var u := Vet(t, found, convert, i).1;
      if name !in found && a.required {
      } else if !a.required {
        assert u == Vet(t, found, convert, i + 1).1;
        VetStores(t, found, convert, i + 1);
        SkippedStored(t, u, found, convert, i);
      } else if convert(a.argType, found[name]).Some? {
        var next := ArgTable(t.order, t.entries[name := Converted(a, name, found, convert)]);
        ReplaceKeeps(t, i, Converted(a, name, found, convert));
        assert u == Vet(next, found, convert, i + 1).1;
        VetStores(next, found, convert, i + 1);
        VetKeeps(next, found, convert, i + 1);
        ConvertedStored(t, next, u, found, convert, i);
      }
    }
  }

  /** Skipping an argument that is not required keeps what is stored from the next
      position on. */
  lemma SkippedStored(t: ArgTable, u: ArgTable, found: map<string, Value>, convert: Converter, i: nat)
    requires WellFormed(t) && i < |t.order| && u.entries.Keys == t.entries.Keys
    requires !t.entries[t.order[i]].required
    requires StoredFrom(t, u, found, convert, i + 1)
    ensures StoredFrom(t, u, found, convert, i)
  {
    forall j | i < j < |t.order| && AcceptedThrough(t, found, convert, i, j)
      ensures AcceptedThrough(t, found, convert, i + 1, j)
    {
    }
  }

  /** Storing the converted value at position `i`, on top of what is stored from the next
      position on, gives what is stored from position `i` on. */
  lemma ConvertedStored(t: ArgTable, next: ArgTable, u: ArgTable, found: map<string, Value>, convert: Converter, i: nat)
    requires WellFormed(t) && i < |t.order| && t.order[i] in found
    requires next == ArgTable(t.order, t.entries[t.order[i] := Converted(t.entries[t.order[i]], t.order[i], found, convert)])
    requires WellFormed(next) && u.entries.Keys == t.entries.Keys
    requires StoredFrom(next, u, found, convert, i + 1)
    requires u.entries[t.order[i]] == Converted(t.entries[t.order[i]], t.order[i], found, convert)
    ensures StoredFrom(t, u, found, convert, i)
  {
    forall j | i < j < |t.order| && t.entries[t.order[j]].required && AcceptedThrough(t, found, convert, i, j)
      ensures t.order[j] in found && u.entries[t.order[j]] == Converted(t.entries[t.order[j]], t.order[j], found, convert)
    {
      StillAccepted(t, next, found, convert, i, j);
    }
  }

  /** Storing the value at position `i` leaves later arguments, and so their acceptance,
      as they were. */
  lemma StillAccepted(t: ArgTable, next: ArgTable, found: map<string, Value>, convert: Converter, i: nat, j: nat)
    requires WellFormed(t) && i < j < |t.order|
    requires next.order == t.order && t.order[i] in found
    requires next.entries == t.entries[t.order[i] := Converted(t.entries[t.order[i]], t.order[i], found, convert)]
    requires AcceptedThrough(t, found, convert, i, j)
    ensures WellFormed(next)
    ensures AcceptedThrough(next, found, convert, i + 1, j)
    ensures next.entries[t.order[j]] == t.entries[t.order[j]]
  {
    forall m | i + 1 <= m <= j ensures Accepted(next.entries[t.order[m]], t.order[m], found, convert) {
      assert t.order[m] != t.order[i];
      assert Accepted(t.entries[t.order[m]], t.order[m], found, convert);
    }
    assert t.order[j] != t.order[i];
  }

  /** The message the check gives for a required argument it rejects. */
  function Rejection(a: ApiArgument, name: string, found: map<string, Value>): string
  {
    if name !in found then MissingMessage(name) else TypeMessage(name, a.argType, found[name])
  }

  /** Position `k` holds the first argument from position `i` on that the check rejects,
      and `message` is what the check says about it. */
  predicate RejectedFirst(t: ArgTable, found: map<string, Value>, convert: Converter, i: nat, k: nat, message: string)
    requires WellFormed(t) && k < |t.order|
  {
    && !Accepted(t.entries[t.order[k]], t.order[k], found, convert)
    && (forall j | i <= j < k :: Accepted(t.entries[t.order[j]], t.order[j], found, convert))
    && message == Rejection(t.entries[t.order[k]], t.order[k], found)
  }

  /** Storing the converted value at position `i` does not change which later argument
      is rejected first. */
  lemma RejectedFirstBack(t: ArgTable, next: ArgTable, found: map<string, Value>, convert: Converter,
                          i: nat, k: nat, message: string)
    requires WellFormed(t) && i < k < |t.order| && t.order[i] in found
    requires next.order == t.order
    requires next.entries == t.entries[t.order[i] := Converted(t.entries[t.order[i]], t.order[i], found, convert)]
    requires Accepted(t.entries[t.order[i]], t.order[i], found, convert)
    requires WellFormed(next) && RejectedFirst(next, found, convert, i + 1, k, message)
    ensures RejectedFirst(t, found, convert, i, k, message)
  {
    forall j | i < j <= k ensures next.entries[t.order[j]] == t.entries[t.order[j]] {
      assert t.order[j] != t.order[i];
    }
  }

  /** A failure names the first required argument that is missing or does not convert. */
  lemma VetFails(t: ArgTable, found: map<string, Value>, convert: Converter, i: nat)
    requires WellFormed(t) && i <= |t.order|
    ensures var r := Vet(t, found, convert, i).0;
            !r.status ==> exists k | i <= k < |t.order| :: RejectedFirst(t, found, convert, i, k, r.exception)
  {
    var k := RejectedAt(t, found, convert, i);
  }

  /** The position of the argument a failed check rejects. */
  lemma {:induction false} RejectedAt(t: ArgTable, found: map<string, Value>, convert: Converter, i: nat)
    returns (k: nat)
    requires WellFormed(t) && i <= |t.order|
    decreases |t.order| - i
    ensures var r := Vet(t, found, convert, i).0;
            !r.status ==> i <= k < |t.order| && RejectedFirst(t, found, convert, i, k, r.exception)
  {
    var r := Vet(t, found, convert, i).0;
    k := i;
    if i < |t.order| {
      var name := t.order[i];
      var a := t.entries[name];
      if name !in found && a.required {
        assert r == ApiResult(false, MissingMessage(name));
        assert RejectedFirst(t, found, convert, i, i, r.exception);
      } else if !a.required {
        assert r == Vet(t, found, convert, i + 1).0;
        k := RejectedAt(t, found, convert, i + 1);
        if !r.status {
          assert Accepted(t.entries[t.order[i]], t.order[i], found, convert);
          assert RejectedFirst(t, found, convert, i, k, r.exception);
        }
      } else if convert(a.argType, found[name]).Some? {
        var next := ArgTable(t.order, t.entries[name := Converted(a, name, found, convert)]);
        assert r == Vet(next, found, convert, i + 1).0;
        k := RejectedAt(next, found, convert, i + 1);
        if !r.status {
          RejectedFirstBack(t, next, found, convert, i, k, r.exception);
        }
      } else {
        assert r == ApiResult(false, TypeMessage(name, a.argType, found[name]));
        assert RejectedFirst(t, found, convert, i, i, r.exception);
      }
    }
  }

  /** Missing required arguments are reported before later ones are looked at: with
      `a` required and absent, the check fails naming `a` even though `b` is also absent. */
  lemma FirstMissingNamed(convert: Converter)
    ensures var t := ArgTable(["a", "b"], map["a" := ApiArgument(true, "int", None), "b" := ApiArgument(true, "int", None)]);
            Vet(t, map[], convert, 0) == (ApiResult(false, "Expected argument 'a' not found in request."), t)
  {
    var t := ArgTable(["a", "b"], map["a" := ApiArgument(true, "int", None), "b" := ApiArgument(true, "int", None)]);
    var none: map<string, Value> := map[];
    assert WellFormed(t);
    FirstRequiredMissing(t, none, convert);
    MissingMessageText();
  }

  /** When the first argument is required and absent, the check stops on it at once. */
  lemma FirstRequiredMissing(t: ArgTable, found: map<string, Value>, convert: Converter)
    requires WellFormed(t) && |t.order| > 0
    requires t.entries[t.order[0]].required && t.order[0] !in found
    ensures Vet(t, found, convert, 0) == (ApiResult(false, MissingMessage(t.order[0])), t)
  {
  }

  /** The missing-argument message for an argument named `a`, spelled out. */
  lemma MissingMessageText()
    ensures MissingMessage("a") == "Expected argument 'a' not found in request."
  {
  }

  // ---------------------------------------------------------------------------
  // The legacy check

  /** The legacy check over the keys from position `i` on: every declared argument must
      be present, whether marked required or not, and its value is stored as found. */
  function LegacyVet(t: ArgTable, found: map<string, Value>, i: nat): (ApiResult, ArgTable)
    requires WellFormed(t) && i <= |t.order|
    decreases |t.order| - i
  {
    if i == |t.order| then (ApiResult(true, ""), t)
    else
      var name := t.order[i];
      if name !in found then (ApiResult(false, MissingMessage(name)), t)
      else LegacyVet(ArgTable(t.order, t.entries[name := t.entries[name].(argValue := Some(found[name]))]), found, i + 1)
  }

  /** The legacy `check_required_args`. Its result dictionary is `{"Status": ...}` with
      an `"Exception"` entry on failure. */
  method LegacyCheckRequiredArgs(expected: ArgTable, found: map<string, Value>) returns (result: ApiResult, arguments: ArgTable)
    requires WellFormed(expected)
    ensures (result, arguments) == LegacyVet(expected, found, 0)
  {
    arguments := expected;
    var i := 0;
    while i < |arguments.order|
      invariant i <= |arguments.order| && arguments.order == expected.order && WellFormed(arguments)
      invariant LegacyVet(arguments, found, i) == LegacyVet(expected, found, 0)
      decreases |arguments.order| - i
    {
      var name := arguments.order[i];
      if name !in found {
        return ApiResult(false, MissingMessage(name)), arguments;
      }
      arguments := ArgTable(arguments.order, arguments.entries[name := arguments.entries[name].(argValue := Some(found[name]))]);
      i := i + 1;
    }
    return ApiResult(true, ""), arguments;
  }

  /** Every declared argument from position `i` to position `j` is in the request. */
  predicate FoundThrough(t: ArgTable, found: map<string, Value>, i: nat, j: nat)
    requires j < |t.order|
  {
    forall m | i <= m <= j :: t.order[m] in found
  }

  /** The legacy check keeps the keys and their order and leaves the arguments before
      position `i` as they were. */
  lemma {:induction false} LegacyVetKeeps(t: ArgTable, found: map<string, Value>, i: nat)
    requires WellFormed(t) && i <= |t.order|
    decreases |t.order| - i
    ensures var u := LegacyVet(t, found, i).1;
            && u.order == t.order && u.entries.Keys == t.entries.Keys
            && (forall j | 0 <= j < i :: u.entries[t.order[j]] == t.entries[t.order[j]])
  {
    if i < |t.order| && t.order[i] in found {
      var name := t.order[i];
      var next := ArgTable(t.order, t.entries[name := t.entries[name].(argValue := Some(found[name]))]);
      LegacyVetKeeps(next, found, i + 1);
      forall j | 0 <= j < i ensures next.entries[t.order[j]] == t.entries[t.order[j]] {
        assert t.order[j] != name;
      }
    }
  }

  /** The legacy check succeeds exactly when every remaining declared argument is in the
      request, and a failure names the first one missing. */
  lemma {:induction false} LegacyVetStatus(t: ArgTable, found: map<string, Value>, i: nat)
    requires WellFormed(t) && i <= |t.order|
    decreases |t.order| - i
    ensures var r := LegacyVet(t, found, i).0;
            && (r.status <==> FoundBefore(t, found, i, |t.order|))
            && (!r.status ==> exists k | i <= k < |t.order| :: MissingFirst(t, found, i, k, r.exception))
  {
    if i < |t.order| {
      var name := t.order[i];
      var r := LegacyVet(t, found, i).0;
      if name in found {
        var next := ArgTable(t.order, t.entries[name := t.entries[name].(argValue := Some(found[name]))]);
        assert WellFormed(next);
        assert r == LegacyVet(next, found, i + 1).0;
        LegacyVetStatus(next, found, i + 1);
        assert FoundBefore(t, found, i, |t.order|) <==> FoundBefore(next, found, i + 1, |t.order|);
        if !r.status {
          var k :| i + 1 <= k < |t.order| && MissingFirst(next, found, i + 1, k, r.exception);
          assert MissingFirst(t, found, i, k, r.exception);
        }
      } else {
        assert MissingFirst(t, found, i, i, r.exception);
      }
    }
  }

  /** Position `k` holds the first declared argument from position `i` on that the request
      lacks, and `message` names it. */
  predicate MissingFirst(t: ArgTable, found: map<string, Value>, i: nat, k: nat, message: string)
    requires k < |t.order|
  {
    t.order[k] !in found && message == MissingMessage(t.order[k]) && FoundBefore(t, found, i, k)
  }

  /** Every declared argument before position `k`, from position `i` on, is in the request. */
  predicate FoundBefore(t: ArgTable, found: map<string, Value>, i: nat, k: nat)
    requires k <= |t.order|
  {
    forall j | i <= j < k :: t.order[j] in found
  }

  /** In `u`, every declared argument of `t` from position `i` up to the first missing one
      holds the request's value unchanged. */
  predicate LegacyStoredFrom(t: ArgTable, u: ArgTable, found: map<string, Value>, i: nat)
    requires WellFormed(t) && u.entries.Keys == t.entries.Keys
  {
    forall j | i <= j < |t.order| && FoundThrough(t, found, i, j) ::
      u.entries[t.order[j]] == t.entries[t.order[j]].(argValue := Some(found[t.order[j]]))
  }

  /** Every argument up to the first missing one (all of them on success) holds the
      request's value unchanged, and those values stay when the check then fails. */
  lemma {:induction false} LegacyVetStores(t: ArgTable, found: map<string, Value>, i: nat)
    requires WellFormed(t) && i <= |t.order|
    decreases |t.order| - i
    ensures LegacyVet(t, found, i).1.entries.Keys == t.entries.Keys
    ensures LegacyStoredFrom(t, LegacyVet(t, found, i).1, found, i)
  {
    LegacyVetKeeps(t, found, i);
    if i < |t.order| && t.order[i] in found {
      var name := t.order[i];
      var next := ArgTable(t.order, t.entries[name := t.entries[name].(argValue := Some(found[name]))]);
      ReplaceKeeps(t, i, t.entries[name].(argValue := Some(found[name])));
      var u := LegacyVet(t, found, i).1;
      assert u == LegacyVet(next, found, i + 1).1;
      LegacyVetStores(next, found, i + 1);
      LegacyVetKeeps(next, found, i + 1);
      FoundStored(t, next, u, found, i);
    } else if i < |t.order| {
      assert LegacyVet(t, found, i).1 == t;
      forall j | i <= j < |t.order| ensures !FoundThrough(t, found, i, j) {
        assert t.order[i] !in found;
      }
    }
  }

  /** Storing the request's value at position `i`, on top of what is stored from the next
      position on, gives what is stored from position `i` on. */
  lemma FoundStored(t: ArgTable, next: ArgTable, u: ArgTable, found: map<string, Value>, i: nat)
    requires WellFormed(t) && i < |t.order| && t.order[i] in found
    requires next == ArgTable(t.order, t.entries[t.order[i] := t.entries[t.order[i]].(argValue := Some(found[t.order[i]]))])
    requires WellFormed(next) && u.entries.Keys == t.entries.Keys
    requires forall j | 0 <= j < |t.order| && j != i :: next.entries[t.order[j]] == t.entries[t.order[j]]
    requires LegacyStoredFrom(next, u, found, i + 1)
    requires u.entries[t.order[i]] == t.entries[t.order[i]].(argValue := Some(found[t.order[i]]))
    ensures LegacyStoredFrom(t, u, found, i)
  {
    forall j | i < j < |t.order| && FoundThrough(t, found, i, j)
      ensures u.entries[t.order[j]] == t.entries[t.order[j]].(argValue := Some(found[t.order[j]]))
    {
      assert FoundThrough(next, found, i + 1, j);
    }
  }

  /** Where every declared argument is required and a string passes through conversion
      unchanged, the current check accepts exactly what the legacy one accepts. */
  lemma CurrentRefinesLegacy(t: ArgTable, found: map<string, Value>, convert: Converter)
    requires WellFormed(t)
    requires forall k | k in t.entries :: t.entries[k].required
    requires forall k, v | k in t.entries :: convert(t.entries[k].argType, v) == Some(v)
    ensures Vet(t, found, convert, 0) == LegacyVet(t, found, 0)
  {
    CurrentMatchesLegacyFrom(t, found, convert, 0);
  }

  lemma {:induction false} CurrentMatchesLegacyFrom(t: ArgTable, found: map<string, Value>, convert: Converter, i: nat)
    requires WellFormed(t) && i <= |t.order|
    requires forall k | k in t.entries :: t.entries[k].required
    requires forall k, v | k in t.entries :: convert(t.entries[k].argType, v) == Some(v)
    decreases |t.order| - i
    ensures Vet(t, found, convert, i) == LegacyVet(t, found, i)
  {
    if i < |t.order| {
      var name := t.order[i];
      if name in found {
        var next := ArgTable(t.order, t.entries[name := t.entries[name].(argValue := Some(found[name]))]);
        assert convert(t.entries[name].argType, found[name]) == Some(found[name]);
        CurrentMatchesLegacyFrom(next, found, convert, i + 1);
      }
    }
  }
}
