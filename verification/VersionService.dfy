/**
 The services that move a version, over the table of versions. Every method reads the row, checks it and
 updates it in place, and is proved to be the step of the lifecycle on that row and on no other.
 */
module VersionService {
  import opened Wrappers
  import opened VersionLifecycle

  class Service {
    const tools: Tools
    var versions: map<nat, Version>

    constructor (tools: Tools)
      ensures this.tools == tools && versions == map[]
    {
      this.tools, versions := tools, map[];
    }

    /** What an operation on one row must leave behind, and what it must answer. */
    ghost predicate Stepped(before: map<nat, Version>, id: nat, op: Op, r: Result<(), Rejection>)
      reads this
    {
      if id !in before then r == Failure(VersionNotFound) && versions == before
      else
        && versions == before[id := Step(tools, before[id], op)]
        && (r.Success? <==> Try(tools, before[id], op).Success?)
        && (r.Failure? ==> r.error == Try(tools, before[id], op).error)
    }

    /** `createArtifact` and `cloneVersion`, as far as the row is concerned. */
    method Create(id: nat, tenant: nat, graph: Graph)
      requires id !in versions
      modifies this
      ensures versions == old(versions)[id := NewVersion(tenant, graph)]
    {
      versions := versions[id := Version(tenant, Draft, 1, None, graph, [], [Row(None, Draft)])];
    }

    /** `transition` */
    method MoveTo(id: nat, to: Status) returns (r: Result<(), Rejection>)
      modifies this
      ensures Stepped(old(versions), id, Transition(to), r)
    {
      if id !in versions {
        return Failure(VersionNotFound);
      }
      var v := versions[id];
      if v.status == to {
        assert versions == versions[id := v];
        return Success(());
      }
      if to !in Allowed(v.status) {
        assert versions == versions[id := v];
        return Failure(InvalidTransition);
      }
      versions := versions[id := v.(status := to)];
      versions := versions[id := versions[id].(history := v.history + [Row(Some(v.status), to)])];
      r := Success(());
    }

    /** `replaceDraftGraph`: the checks beforehand, then the guarded update, then the children. */
    method ReplaceDraftGraph(tenant: nat, id: nat, expected: nat, graph: Graph) returns (r: Result<(), Rejection>)
      modifies this
      ensures Stepped(old(versions), id, Save(tenant, expected, graph), r)
      ensures r.Success? ==> id in versions && versions[id].graph == graph && versions[id].lockVersion == expected + 1
    {
      if id !in versions {
        return Failure(VersionNotFound);
      }
      var v := versions[id];
      r := Success(());
      if v.tenant != tenant {
        r := Failure(VersionNotFound);
      } else if v.status != Draft && v.status != ValidationFailed {
        r := Failure(VersionImmutable);
      } else if v.lockVersion != expected {
        r := Failure(LockConflict);
      }
      assert versions == versions[id := v];
      if r.Failure? {
        return;
      }
      var updated := GuardedUpdate(id, expected);
      assert updated;
      versions := versions[id := versions[id].(compilations := [])];
      versions := versions[id := versions[id].(graph := graph)];
    }

    /** The `updateMany` of a save: the lock and the status are checked by the statement that writes. */
    method GuardedUpdate(id: nat, expected: nat) returns (updated: bool)
      requires id in versions
      modifies this
      ensures updated <==> old(versions[id]).lockVersion == expected && Editable(old(versions[id]).status)
      ensures versions ==
              if updated
              then old(versions)[id := old(versions[id]).(lockVersion := expected + 1, status := Draft, checksum := None)]
              else old(versions)
    {
      var v := versions[id];
      updated := v.lockVersion == expected && (v.status == Draft || v.status == ValidationFailed);
      if updated {
        versions := versions[id := v.(lockVersion := v.lockVersion + 1, status := Draft, checksum := None)];
      }
    }

    /** `validate` */
    method ValidateVersion(tenant: nat, id: nat) returns (r: Result<(), Rejection>)
      modifies this
      ensures Stepped(old(versions), id, Validate(tenant), r)
      ensures r.Success? ==>
                && id in versions && versions[id].graph == old(versions)[id].graph
                && versions[id].status == if tools.report(versions[id].graph).valid then Validated else ValidationFailed
    {
      if id !in versions {
        return Failure(VersionNotFound);
      }
      var v := versions[id];
      assert versions == versions[id := v];
      if v.tenant != tenant {
        return Failure(VersionNotFound);
      }
      if v.status !in {Draft, ValidationFailed, Validated} {
        return Failure(NotValidatable);
      }
      var report := tools.report(v.graph);
      r := Success(());
      if report.valid {
        if report.checksum.Some? {
          versions := versions[id := v.(checksum := report.checksum)];
        }
        if v.status != Validated {
          r := MoveTo(id, Validated);
        }
      } else if v.status != ValidationFailed {
        r := MoveTo(id, ValidationFailed);
      }
    }

    /** `compile`; a rejected transaction leaves the row as it was. */
    method CompileVersion(tenant: nat, id: nat) returns (r: Result<(), Rejection>)
      modifies this
      ensures Stepped(old(versions), id, Compile(tenant), r)
    {
      if id !in versions {
        return Failure(VersionNotFound);
      }
      var v := versions[id];
      assert versions == versions[id := v];
      if v.tenant != tenant {
        return Failure(VersionNotFound);
      }
      if v.status != Validated {
        return Failure(NotCompilable);
      }
      var report := tools.report(v.graph);
      if !report.valid || !report.hasAst || report.checksum.None? {
        return Failure(ValidationRequired);
      }
      if v.checksum.Some? && v.checksum != report.checksum {
        return Failure(ChecksumMismatch);
      }
      var checksum := tools.compile(v.graph);
      if HasCompilation(v, checksum) {
        return Failure(DuplicateCompilation);
      }
      versions := versions[id := v.(compilations := v.compilations + [Compilation(checksum, v.graph)])];
      r := MoveTo(id, Compiled);
    }
  }
}
