/** The service handlers: creating a service (a validator keyed on the
    service type), reading one with its sub-services (refreshed from the
    compose file for compose services), and bringing a compose service up
    or down. The store's and the compose tool's answers are parameters. */
module ServiceHandlers {
  import opened Wrappers
  import opened Catalog
  import opened Http
  import Strconv

  const ImageRequired := "Image is required for container type"
  const ComposePathRequired := "ComposePath is required for compose type"
  const InvalidType := "Invalid service type"
  const CreateFailed := "Failed to create service"
  const ServiceNotFound := "Service not found"

  /** What binding the JSON request body produced: the binder's error message, or the decoded record */
  datatype Body = Unbindable(message: string) | Bound(service: Service)

  /** The catalog after a request, and the reply */
  datatype Handled = Handled(table: Table, reply: Reply)

  // ---------------------------------------------------------------- create

  /** The environment a new service is filed under: the path parameter read
      by Atoi with its error discarded, then converted to uint */
  function EnvironmentOf(param: string): (env: nat)
    ensures env < Strconv.Uint64Limit
  {
    Strconv.UintOf(Strconv.Atoi(param).value)
  }

  /** The type is one the handler knows and its type-specific field is filled in */
  predicate Acceptable(s: Service) {
    (s.serviceType == ContainerType && s.image != "") ||
    (s.serviceType == ComposeType && s.composePath != "")
  }

  /** The type switch: the message a record is rejected with, if any */
  function Rejection(s: Service): (m: Option<string>)
    ensures m.None? <==> Acceptable(s)
    ensures m.Some? ==> m.value in {ImageRequired, ComposePathRequired, InvalidType}
  {
    if s.serviceType == ContainerType then
      (if s.image == "" then Some(ImageRequired) else None)
    else if s.serviceType == ComposeType then
      (if s.composePath == "" then Some(ComposePathRequired) else None)
    else Some(InvalidType)
  }

  /** CreateService. insertOk is whether the store accepts the INSERT. */
  function CreateService(param: string, body: Body, t: Table, insertOk: bool): (r: Handled)
    ensures r.reply.code == StatusOK <==> body.Bound? && Acceptable(body.service) && insertOk
    ensures r.reply.code != StatusOK ==> r.table == t
    ensures r.reply.code == StatusOK ==>
      r.table == Insert(t, body.service.(environmentId := EnvironmentOf(param))) &&
      r.reply == Record(StatusOK, r.table.rows[|t.rows|], [])
    ensures body.Unbindable? ==> r.reply == Error(StatusBadRequest, body.message)
    ensures body.Bound? && body.service.serviceType == ContainerType && body.service.image == "" ==>
      r.reply == Error(StatusBadRequest, ImageRequired)
    ensures body.Bound? && body.service.serviceType == ComposeType && body.service.composePath == "" ==>
      r.reply == Error(StatusBadRequest, ComposePathRequired)
    ensures body.Bound? && body.service.serviceType !in {ContainerType, ComposeType} ==>
      r.reply == Error(StatusBadRequest, InvalidType)
    ensures body.Bound? && Acceptable(body.service) && !insertOk ==>
      r.reply == Error(StatusInternalServerError, CreateFailed)
    ensures WellKeyed(t) ==> WellKeyed(r.table)
  {
    match body
    case Unbindable(message) => Handled(t, Error(StatusBadRequest, message))
    case Bound(s) =>
      var s1 := s.(environmentId := EnvironmentOf(param));
      match Rejection(s1)
      case Some(message) => Handled(t, Error(StatusBadRequest, message))
      case None =>
        if !insertOk then Handled(t, Error(StatusInternalServerError, CreateFailed))
        else
          var t1 := Insert(t, s1);
          Handled(t1, Record(StatusOK, t1.rows[|t.rows|], []))
  }

  /** Whatever environment the body names, the path parameter decides it */
  lemma PathDecidesEnvironment(param: string, s: Service, env: nat, t: Table, insertOk: bool)
    ensures CreateService(param, Bound(s), t, insertOk) ==
            CreateService(param, Bound(s.(environmentId := env)), t, insertOk)
  {
    assert s.(environmentId := EnvironmentOf(param)) ==
           s.(environmentId := env).(environmentId := EnvironmentOf(param));
  }

  /** A decimal path parameter within the int64 range is the environment */
  lemma EnvironmentOfDecimal(n: nat)
    requires n <= Strconv.MaxInt64
    ensures EnvironmentOf(Strconv.Decimal(n)) == n
  {
    Strconv.AtoiDecimal(n);
  }

  /** A negative path parameter wraps around to a large environment ID */
  lemma EnvironmentOfNegative(n: nat)
    requires 0 < n <= Strconv.MaxInt64 + 1
    ensures EnvironmentOf("-" + Strconv.Decimal(n)) == Strconv.Uint64Limit - n
  {
    Strconv.AtoiNegative(n);
  }

  /** A path parameter that is not a numeral files the service under environment 0 */
  lemma EnvironmentOfNonNumeral(param: string)
    requires |Strconv.Unsigned(param)| <= 19
    requires Strconv.Unsigned(param) == [] || !Strconv.AllDigits(Strconv.Unsigned(param))
    ensures EnvironmentOf(param) == 0
  {
    Strconv.AtoiNonNumeral(param);
  }

  /** A path parameter with a non-digit after the sign and digits that fit in
      64 bits, whatever its length, files the service under environment 0 */
  lemma EnvironmentOfSyntaxError(param: string, digits: string, c: char, rest: string)
    requires Strconv.Unsigned(param) == digits + [c] + rest
    requires Strconv.AllDigits(digits) && !Strconv.IsDigit(c) && Strconv.Horner(0, digits) <= Strconv.MaxUint64
    ensures EnvironmentOf(param) == 0
  {
    Strconv.AtoiStopsAtNonDigit(param, digits, c, rest);
  }

  /** A path parameter whose digits overflow 64 bits before any non-digit
      files the service under 2^63 - 1, or under 2^63 after a minus sign */
  lemma EnvironmentOfOverflow(param: string, digits: string, rest: string)
    requires Strconv.Unsigned(param) == digits + rest
    requires Strconv.AllDigits(digits) && Strconv.Horner(0, digits) > Strconv.MaxUint64
    ensures param != [] && EnvironmentOf(param) == if param[0] == '-' then Strconv.MaxInt64 + 1 else Strconv.MaxInt64
  {
    Strconv.AtoiOverflowsFirst(param, digits, rest);
  }

  // ------------------------------------------------- compose sub-services

  /** What reading and parsing the compose file produced: the image of each
      entry under `services:` (an entry without one has the empty image) */
  datatype ComposeFile = Unreadable | Malformed | ComposeServices(images: map<string, string>)

  /** order lists every key exactly once: the order a map range visits them in */
  predicate Enumerates(order: seq<string>, keys: set<string>) {
    (forall i :: 0 <= i < |order| ==> order[i] in keys) &&
    (forall k :: k in keys ==> k in order) &&
    (forall i, j :: 0 <= i < j < |order| ==> order[i] != order[j])
  }

  /** The record created for one compose entry, before the store keys it */
  function SubService(parent: Service, name: string, image: string): Service {
    Service(0, name, parent.environmentId, Some(parent.id), ContainerType, image, "", "")
  }

  /** The records created for the compose entries, in visiting order */
  function SubServices(parent: Service, images: map<string, string>, order: seq<string>): seq<Service>
    requires forall i :: 0 <= i < |order| ==> order[i] in images
  {
    seq(|order|, i requires 0 <= i < |order| => SubService(parent, order[i], images[order[i]]))
  }

  /** updateSubServicesFromComposeFile: when the file reads and parses, delete
      the parent's children, then insert one child per entry */
  function Refresh(t: Table, parent: Service, file: ComposeFile, order: seq<string>): (r: Table)
    requires file.ComposeServices? ==> Enumerates(order, file.images.Keys)
    ensures !file.ComposeServices? ==> r == t
  {
    match file
    case ComposeServices(images) =>
      InsertAll(Delete(t, ChildOf(parent.id)), SubServices(parent, images, order))
    case _ => t
  }

  /** A refresh keeps the table well keyed */
  lemma RefreshWellKeyed(t: Table, parent: Service, file: ComposeFile, order: seq<string>)
    requires file.ComposeServices? ==> Enumerates(order, file.images.Keys)
    requires WellKeyed(t)
    ensures WellKeyed(Refresh(t, parent, file, order))
  {
    if file.ComposeServices? {
      DeleteWellKeyed(t, ChildOf(parent.id));
      InsertAllWellKeyed(Delete(t, ChildOf(parent.id)), SubServices(parent, file.images, order));
    }
  }

  lemma {:induction false} InsertAllWellKeyed(t: Table, ss: seq<Service>)
    requires WellKeyed(t)
    ensures WellKeyed(InsertAll(t, ss))
    decreases |ss|
  {
    if ss != [] {
      InsertAllWellKeyed(Insert(t, ss[0]), ss[1..]);
    }
  }

  /** An enumeration of a map's keys is as long as the map is large */
  lemma {:induction false} EnumerationSize(order: seq<string>, keys: set<string>)
    requires Enumerates(order, keys)
    ensures |order| == |keys|
    decreases |order|
  {
    if order != [] {
      var rest := order[1..];
      assert Enumerates(rest, keys - {order[0]}) by {
        forall k | k in keys - {order[0]}
          ensures k in rest
        {
          var i :| 0 <= i < |order| && order[i] == k;
          assert rest[i - 1] == k;
        }
      }
      EnumerationSize(rest, keys - {order[0]});
    } else {
      assert keys == {};
    }
  }

  /** After a refresh from a parsed compose file the parent's children are
      exactly one fresh record per compose entry: named after the entry,
      with its image, of container type, in the parent's environment */
  lemma RefreshReplacesChildren(t: Table, parent: Service, images: map<string, string>, order: seq<string>)
    requires Enumerates(order, images.Keys)
    ensures var children := ChildrenOf(Refresh(t, parent, ComposeServices(images), order), parent.id);
      |children| == |images| &&
      (forall name :: name in images <==> exists c :: c in children && c.name == name) &&
      (forall c :: c in children ==>
        c.name in images && c.image == images[c.name] && c.serviceType == ContainerType &&
        c.environmentId == parent.environmentId && c.parentServiceId == Some(parent.id) &&
        c.id >= t.nextId)
  {
    var subs := SubServices(parent, images, order);
    var children := ChildrenOf(Refresh(t, parent, ComposeServices(images), order), parent.id);
    RefreshedChildren(t, parent, images, order);
    KeyedAt(subs, t.nextId);
    EnumerationSize(order, images.Keys);
    forall c | c in children
      ensures c.name in images && c.image == images[c.name] && c.serviceType == ContainerType
      ensures c.environmentId == parent.environmentId && c.parentServiceId == Some(parent.id)
      ensures c.id >= t.nextId
    {
      var i :| 0 <= i < |children| && children[i] == c;
      assert c == subs[i].(id := t.nextId + i);
    }
    forall name | name in images
      ensures exists c :: c in children && c.name == name
    {
      var i :| 0 <= i < |order| && order[i] == name;
      assert children[i].name == name;
    }
  }

  /** The children after a refresh are the created records, keyed from the table's next key on */
  lemma RefreshedChildren(t: Table, parent: Service, images: map<string, string>, order: seq<string>)
    requires Enumerates(order, images.Keys)
    ensures ChildrenOf(Refresh(t, parent, ComposeServices(images), order), parent.id) ==
            Keyed(SubServices(parent, images, order), t.nextId)
  {
    var subs := SubServices(parent, images, order);
    var sel := ChildOf(parent.id);
    assert Refresh(t, parent, ComposeServices(images), order) == InsertAll(Delete(t, sel), subs);
    forall i | 0 <= i < |subs|
      ensures Selects(sel, subs[i])
    {
      assert subs[i].parentServiceId == Some(parent.id);
    }
    ReplaceMatching(t, sel, subs);
  }

  /** A refresh touches no row outside the parent's children */
  lemma RefreshKeepsOthers(t: Table, parent: Service, file: ComposeFile, order: seq<string>, s: Service)
    requires file.ComposeServices? ==> Enumerates(order, file.images.Keys)
    requires s.parentServiceId != Some(parent.id)
    ensures s in Refresh(t, parent, file, order).rows <==> s in t.rows
  {
    if file.ComposeServices? {
      var cleared := Delete(t, ChildOf(parent.id));
      var subs := SubServices(parent, file.images, order);
      InsertAllAppends(cleared, subs);
      var created := Keyed(subs, t.nextId);
      KeyedAt(subs, t.nextId);
      assert s !in created;
    }
  }

  /** GetServiceDetails on the service with key id. file and order are what
      reading the compose file and visiting its map give, when asked. A
      compose service is refreshed and then reloaded with its children; when
      the reload finds no row (the refresh deleted the service itself), its
      error is ignored and the service as first loaded, with the children
      loaded then, is the reply. */
  function GetServiceDetails(t: Table, id: nat, file: ComposeFile, order: seq<string>): (r: Handled)
    requires file.ComposeServices? ==> Enumerates(order, file.images.Keys)
    ensures Find(t, id).None? ==> r == Handled(t, Error(StatusNotFound, ServiceNotFound))
    ensures Find(t, id).Some? && Find(t, id).value.serviceType != ComposeType ==>
      r == Handled(t, Record(StatusOK, Find(t, id).value, ChildrenOf(t, id)))
    ensures Find(t, id).Some? && Find(t, id).value.serviceType == ComposeType ==>
      && r.table == Refresh(t, Find(t, id).value, file, order)
      && (Find(r.table, id).Some? ==>
            r.reply == Record(StatusOK, Find(r.table, id).value, ChildrenOf(r.table, id)))
      && (Find(r.table, id).None? ==>
            r.reply == Record(StatusOK, Find(t, id).value, ChildrenOf(t, id)))
  {
    match Find(t, id)
    case None => Handled(t, Error(StatusNotFound, ServiceNotFound))
    case Some(s) =>
      if s.serviceType != ComposeType then Handled(t, Record(StatusOK, s, ChildrenOf(t, id)))
      else
        var t1 := Refresh(t, s, file, order);
        match Find(t1, id)
        case Some(reloaded) => Handled(t1, Record(StatusOK, reloaded, ChildrenOf(t1, id)))
        case None => Handled(t1, Record(StatusOK, s, ChildrenOf(t, id)))
  }

  /** For a compose service whose file parses and which is not its own
      parent, the details show the service and exactly the sub-services just
      created from the file, one per entry, in visiting order and keyed from
      the table's next key on: no earlier child survives */
  lemma DetailsShowFreshChildren(t: Table, id: nat, images: map<string, string>, order: seq<string>)
    requires Enumerates(order, images.Keys)
    requires Find(t, id).Some? && Find(t, id).value.serviceType == ComposeType
    requires Find(t, id).value.parentServiceId != Some(id)
    ensures var r := GetServiceDetails(t, id, ComposeServices(images), order);
      && r.reply.Record?
      && r.reply.service == Find(t, id).value
      && r.reply.subServices == Keyed(SubServices(Find(t, id).value, images, order), t.nextId)
  {
    var s := Find(t, id).value;
    var sel := ChildOf(s.id);
    var subs := SubServices(s, images, order);
    var t1 := Refresh(t, s, ComposeServices(images), order);
    InsertAllAppends(Delete(t, sel), subs);
    assert t1.rows == Unmatched(t.rows, sel) + Keyed(subs, t.nextId);
    FindUnmatched(t.rows, sel, Keyed(subs, t.nextId), t.nextId, t1.nextId, id);
    assert Find(t1, id) == Some(s);
    RefreshedChildren(t, s, images, order);
  }

  /** A compose service that is its own parent is deleted by its own
      refresh: the reload finds nothing, and the reply is the service with
      the children loaded before the refresh, itself among them */
  lemma SelfParentDetailsStale(t: Table, id: nat, images: map<string, string>, order: seq<string>)
    requires WellKeyed(t) && Enumerates(order, images.Keys)
    requires Find(t, id).Some? && Find(t, id).value.serviceType == ComposeType
    requires Find(t, id).value.parentServiceId == Some(id)
    ensures var r := GetServiceDetails(t, id, ComposeServices(images), order);
      && Find(r.table, id).None?
      && r.reply == Record(StatusOK, Find(t, id).value, ChildrenOf(t, id))
      && Find(t, id).value in r.reply.subServices
  {
    var s := Find(t, id).value;
    var sel := ChildOf(s.id);
    var subs := SubServices(s, images, order);
    var created := Keyed(subs, t.nextId);
    var t1 := Refresh(t, s, ComposeServices(images), order);
    InsertAllAppends(Delete(t, sel), subs);
    KeyedAt(subs, t.nextId);
    assert t1.rows == Delete(t, sel).rows + created;
    forall x | x in t1.rows
      ensures x.id != id
    {
      if x in created {
        var i :| 0 <= i < |created| && created[i] == x;
        assert x.id == t.nextId + i;
      } else {
        assert x in Delete(t, sel).rows;
        OnlyRowWithKey(t, id, x);
        assert x != s;
      }
    }
  }

  // ------------------------------------------------------------ up / down

  datatype Direction = Up | Down

  /** An external command: its argument vector and working directory */
  datatype Command = Command(argv: seq<string>, dir: string)

  /** What running the command returned: its combined output, and whether it exited successfully */
  datatype Outcome = Outcome(output: string, succeeded: bool)

  /** The command a handler runs, if any, and the reply it writes, if any */
  datatype Dispatch = Dispatch(command: Option<Command>, reply: Option<Reply>)

  function ComposeVerb(d: Direction): seq<string> {
    match d
    case Up => ["up", "-d"]
    case Down => ["down"]
  }

  function NotImplemented(d: Direction): string {
    match d
    case Up => "Container start not implemented yet"
    case Down => "Container stop not implemented yet"
  }

  function RunFailed(d: Direction): string {
    match d
    case Up => "Failed to run docker-compose up"
    case Down => "Failed to run docker-compose down"
  }

  function RunSucceeded(d: Direction): string {
    match d
    case Up => "Compose service started"
    case Down => "Compose service stopped"
  }

  /** UpService and DownService. dirOf is filepath.Dir; run is the outcome of
      the command, consulted only when one is run. */
  function Lifecycle(d: Direction, t: Table, id: nat, dirOf: string -> string, run: Outcome): (r: Dispatch)
    ensures r.command.Some? <==> Find(t, id).Some? && Find(t, id).value.serviceType == ComposeType
    ensures r.command.Some? ==>
      var path := Find(t, id).value.composePath;
      r.command.value == Command(["docker-compose", "-f", path] + ComposeVerb(d), dirOf(path))
    ensures r.reply.None? <==>
      Find(t, id).Some? && Find(t, id).value.serviceType !in {ContainerType, ComposeType}
    ensures Find(t, id).None? ==> r.reply == Some(Error(StatusNotFound, ServiceNotFound))
    ensures Find(t, id).Some? && Find(t, id).value.serviceType == ContainerType ==>
      r.reply == Some(Fields(StatusNotImplemented, map["message" := NotImplemented(d)]))
    ensures r.command.Some? && run.succeeded ==>
      r.reply == Some(Fields(StatusOK, map["message" := RunSucceeded(d), "output" := run.output]))
    ensures r.command.Some? && !run.succeeded ==>
      r.reply == Some(Fields(StatusInternalServerError, map["error" := RunFailed(d), "output" := run.output]))
  {
    match Find(t, id)
    case None => Dispatch(None, Some(Error(StatusNotFound, ServiceNotFound)))
    case Some(s) =>
      if s.serviceType == ContainerType then
        Dispatch(None, Some(Fields(StatusNotImplemented, map["message" := NotImplemented(d)])))
      else if s.serviceType == ComposeType then
        var command := Command(["docker-compose", "-f", s.composePath] + ComposeVerb(d), dirOf(s.composePath));
        if run.succeeded then
          Dispatch(Some(command), Some(Fields(StatusOK, map["message" := RunSucceeded(d), "output" := run.output])))
        else
          Dispatch(Some(command), Some(Fields(StatusInternalServerError, map["error" := RunFailed(d), "output" := run.output])))
      else Dispatch(None, None)
  }
}
