/** Scheduling a working-copy path for deletion (libsvn_client/delete.c):
    the check that nothing under the path would be lost, and the local
    branch of svn_client_delete that runs it before svn_wc_delete. */
module ClientDelete {
  import opened Wrappers

  /** svn_wc_status_kind */
  datatype StatusKind =
    | NoStatus | Unversioned | Normal | Added | Absent | Missing | Deleted | Replaced
    | Modified | Merged | Conflicted | Ignored | Obstructed | External | Incomplete

  /** The fields of svn_wc_status_t that the check reads. */
  datatype Status = Status(textStatus: StatusKind, propStatus: StatusKind, hasEntry: bool)

  datatype DeleteError =
    | NodeUnexpectedKind(name: string)
    | ClientUnversioned(name: string)
    | ClientModified(name: string)
    | Foreign(code: int)

  /** A path that can be deleted without losing anything: under version
      control, in the way of nothing, and without local text or property
      modifications. */
  predicate Clean(s: Status)
  {
    && s.hasEntry
    && s.textStatus in {Normal, Deleted, Absent}
    && s.propStatus in {NoStatus, Normal}
  }

  /** The checks of one status record, in the order the source makes them. */
  function Verdict(name: string, s: Status): (r: Option<DeleteError>)
    ensures r.None? <==> Clean(s)
    ensures s.textStatus == Obstructed ==> r == Some(NodeUnexpectedKind(name))
    ensures s.textStatus != Obstructed && !s.hasEntry ==> r == Some(ClientUnversioned(name))
    ensures s.textStatus != Obstructed && s.hasEntry && !Clean(s) ==> r == Some(ClientModified(name))
  {
    if s.textStatus == Obstructed then Some(NodeUnexpectedKind(name))
    else if !s.hasEntry then Some(ClientUnversioned(name))
    else if (s.textStatus != Normal && s.textStatus != Deleted && s.textStatus != Absent)
         || (s.propStatus != NoStatus && s.propStatus != Normal)
    then Some(ClientModified(name))
    else None
  }

  /** An obstructed path is reported as such even when it is also
      unversioned or modified. */
  lemma ObstructionFirst(name: string, s: Status)
    requires s.textStatus == Obstructed
    ensures !Clean(s) && Verdict(name, s) == Some(NodeUnexpectedKind(name))
  {
  }

  /** Every failure names the path it was found at. */
  lemma VerdictNamesPath(name: string, s: Status)
    requires Verdict(name, s).Some?
    ensures Verdict(name, s).value.name == name && !Verdict(name, s).value.Foreign?
  {
  }

  /** svn_client__can_delete, once svn_wc_statuses has gathered the status of
      every path under the one to delete (or failed to). The hash is visited
      in an unspecified order; the first failing record decides the error. */
  method CanDelete(gathered: Result<map<string, Status>, int>) returns (err: Option<DeleteError>)
    ensures gathered.Failure? ==> err == Some(Foreign(gathered.error))
    ensures gathered.Success? ==>
      (err.None? <==> forall name :: name in gathered.value ==> Clean(gathered.value[name]))
    ensures gathered.Success? && err.Some? ==>
      exists name :: name in gathered.value && err == Verdict(name, gathered.value[name])
  {
    if gathered.Failure? {
      return Some(Foreign(gathered.error));
    }
    var statuses := gathered.value;
    var todo := statuses.Keys;
    while todo != {}
      invariant todo <= statuses.Keys
      invariant forall name :: name in statuses && name !in todo ==> Clean(statuses[name])
      decreases |todo|
    {
      var name :| name in todo;
      err := Verdict(name, statuses[name]);
      if err.Some? {
        return;
      }
      todo := todo - {name};
    }
    return None;
  }

  /** The local branch of svn_client_delete: unless forced, the check runs
      first and svn_wc_delete (whose outcome is given) is reached only when it
      passes. deleted says whether svn_wc_delete was reached. */
  method DeleteLocal(force: bool, gathered: Result<map<string, Status>, int>, wcDelete: Option<DeleteError>)
    returns (err: Option<DeleteError>, deleted: bool)
    ensures deleted <==> force || (gathered.Success? && forall name :: name in gathered.value ==> Clean(gathered.value[name]))
    ensures deleted ==> err == wcDelete
    ensures !deleted ==> err.Some?
    ensures !deleted && gathered.Failure? ==> err == Some(Foreign(gathered.error))
    ensures !deleted && gathered.Success? ==>
      exists name :: name in gathered.value && err == Verdict(name, gathered.value[name])
  {
    if !force {
      err := CanDelete(gathered);
      if err.Some? {
        return err, false;
      }
    }
    return wcDelete, true;
  }
}
