/** The container and image handlers: each makes one or two runtime calls
    and maps their answers to a reply. The runtime's answers are
    parameters; the calls made are part of the result, so that a call that
    must not happen can be seen not to happen. */
module DockerHandlers {
  import opened Wrappers
  import opened Catalog
  import opened Http
  import GoStrings

  /** Seconds the runtime waits for a container to stop before killing it */
  const StopTimeout := 10

  /** The substring that marks an image as belonging to the application itself */
  const ProtectedMarker := "dockman"

  const InspectFailed := "Failed to inspect image"
  const ImageProtected := "This image belongs to the DockMan application and cannot be deleted."
  const RemoveFailed := "Failed to remove image"
  const DeleteFailed := "Failed to delete container"

  datatype RuntimeCall =
    | ContainerStart(container: string)
    | ContainerStop(container: string, timeout: int)
    | ContainerRestart(container: string, timeout: int)
    | ContainerRemove(container: string, force: bool)
    | ImageInspect(image: string)
    | ImageRemove(image: string, force: bool)

  /** An error from the runtime: its message, and the HTTP status it carries if it carries one */
  datatype RuntimeError = RuntimeError(message: string, statusCode: Option<int>)

  /** The runtime calls a handler made, in order, and its reply */
  datatype Exchange = Exchange(calls: seq<RuntimeCall>, reply: Reply)

  /** The runtime reports that the container was already running */
  predicate AlreadyRunning(err: RuntimeError) {
    err.statusCode == Some(StatusNotModified)
  }

  /** StartContainer: a "not modified" error counts as success */
  function StartContainer(container: string, err: Option<RuntimeError>): (r: Exchange)
    ensures r.calls == [ContainerStart(container)]
    ensures r.reply.code == StatusOK <==> err.None? || AlreadyRunning(err.value)
    ensures r.reply == Status("started") <==> err.None?
    ensures r.reply == Status("already running") <==> err.Some? && AlreadyRunning(err.value)
    ensures err.Some? && !AlreadyRunning(err.value) ==>
      r.reply == Error(StatusInternalServerError, err.value.message)
  {
    assert Status("started").fields["status"][0] != Status("already running").fields["status"][0];
    match err
    case None => Exchange([ContainerStart(container)], Status("started"))
    case Some(e) =>
      if AlreadyRunning(e) then Exchange([ContainerStart(container)], Status("already running"))
      else Exchange([ContainerStart(container)], Error(StatusInternalServerError, e.message))
  }

  /** StopContainer */
  function StopContainer(container: string, err: Option<RuntimeError>): (r: Exchange)
    ensures r.calls == [ContainerStop(container, 10)]
    ensures err.None? ==> r.reply == Status("stopped")
    ensures err.Some? ==> r.reply == Error(StatusInternalServerError, err.value.message)
  {
    var call := ContainerStop(container, StopTimeout);
    match err
    case None => Exchange([call], Status("stopped"))
    case Some(e) => Exchange([call], Error(StatusInternalServerError, e.message))
  }

  /** RestartContainer */
  function RestartContainer(container: string, err: Option<RuntimeError>): (r: Exchange)
    ensures r.calls == [ContainerRestart(container, 10)]
    ensures err.None? ==> r.reply == Status("restarted")
    ensures err.Some? ==> r.reply == Error(StatusInternalServerError, err.value.message)
  {
    var call := ContainerRestart(container, StopTimeout);
    match err
    case None => Exchange([call], Status("restarted"))
    case Some(e) => Exchange([call], Error(StatusInternalServerError, e.message))
  }

  /** The marker occurs somewhere in the tag */
  ghost predicate Mentions(tag: string) {
    exists k :: GoStrings.OccursAt(tag, ProtectedMarker, k)
  }

  /** Some tag of the image mentions the marker */
  ghost predicate Protected(tags: seq<string>) {
    exists i :: 0 <= i < |tags| && Mentions(tags[i])
  }

  /** The guard is a plain substring test: the marker anywhere in a tag, even inside a longer word, protects the image */
  lemma MarkerAnywhereProtects(tags: seq<string>, i: nat, before: string, after: string)
    requires i < |tags| && tags[i] == before + ProtectedMarker + after
    ensures Protected(tags)
  {
    assert tags[i][|before|..|before| + |ProtectedMarker|] == ProtectedMarker;
    assert GoStrings.OccursAt(tags[i], ProtectedMarker, |before|);
  }

  /** The test is case-sensitive: a tag without a lower-case 'd' never
      mentions the marker, so "DockMan", "Dockman" or "DOCKMAN" protects nothing */
  lemma NoLowercaseDUnprotected(tag: string)
    requires forall i :: 0 <= i < |tag| ==> tag[i] != 'd'
    ensures !Mentions(tag)
  {
    forall k | 0 <= k && k + |ProtectedMarker| <= |tag|
      ensures !GoStrings.OccursAt(tag, ProtectedMarker, k)
    {
      assert tag[k..k + |ProtectedMarker|][0] == tag[k] != ProtectedMarker[0];
    }
  }

  /** DeleteImage. inspect is the image's repository tags, or None when the
      inspection fails; removeOk is whether the removal succeeds. */
  method DeleteImage(image: string, inspect: Option<seq<string>>, removeOk: bool) returns (r: Exchange)
    ensures inspect.None? ==> r == Exchange([ImageInspect(image)], Error(StatusInternalServerError, InspectFailed))
    ensures inspect.Some? && Protected(inspect.value) ==>
      r == Exchange([ImageInspect(image)], Error(StatusForbidden, ImageProtected))
    ensures inspect.Some? && !Protected(inspect.value) ==>
      r.calls == [ImageInspect(image), ImageRemove(image, false)]
    ensures inspect.Some? && !Protected(inspect.value) && removeOk ==> r.reply == Status("deleted")
    ensures inspect.Some? && !Protected(inspect.value) && !removeOk ==>
      r.reply == Error(StatusInternalServerError, RemoveFailed)
    ensures (exists force :: ImageRemove(image, force) in r.calls) <==> inspect.Some? && !Protected(inspect.value)
  {
    if inspect.None? {
      return Exchange([ImageInspect(image)], Error(StatusInternalServerError, InspectFailed));
    }
    var tags := inspect.value;
    var i := 0;
    while i < |tags|
      invariant 0 <= i <= |tags|
      invariant forall j :: 0 <= j < i ==> !Mentions(tags[j])
    {
      GoStrings.ContainsIffOccurs(tags[i], ProtectedMarker);
      if GoStrings.Contains(tags[i], ProtectedMarker) {
        return Exchange([ImageInspect(image)], Error(StatusForbidden, ImageProtected));
      }
      i := i + 1;
    }
    var reply := if removeOk then Status("deleted") else Error(StatusInternalServerError, RemoveFailed);
    r := Exchange([ImageInspect(image), ImageRemove(image, false)], reply);
    assert ImageRemove(image, false) in r.calls;
  }

  /** What DeleteContainer leaves behind: the runtime calls, the catalog, the reply */
  datatype Removal = Removal(calls: seq<RuntimeCall>, table: Table, reply: Reply)

  /** DeleteContainer. removeOk is whether the runtime removes the container;
      deleteOk whether the catalog's DELETE succeeds. */
  function DeleteContainer(container: string, t: Table, removeOk: bool, deleteOk: bool): (r: Removal)
    ensures r.calls == [ContainerRemove(container, true)]
    ensures r.reply.code == StatusOK <==> removeOk
    ensures !removeOk ==> r.table == t && r.reply == Error(StatusInternalServerError, DeleteFailed)
    ensures removeOk ==> r.reply == Status("deleted")
    ensures removeOk && deleteOk ==>
      forall s :: s in r.table.rows <==> s in t.rows && s.containerId != container
    ensures !(removeOk && deleteOk) ==> r.table == t
  {
    var call := ContainerRemove(container, true);
    if !removeOk then Removal([call], t, Error(StatusInternalServerError, DeleteFailed))
    else
      var t1 := if deleteOk then Delete(t, WithContainer(container)) else t;
      Removal([call], t1, Status("deleted"))
  }
}
