/**
 The parts of ClangdServer that keep versions, as the object the source has: two
 maps updated in place. The contracts are the functions that ServerProtocol uses.
 */
module DocumentVersions {
  import opened WorkerProtocol
  import opened ServerProtocol

  class ClangdServer {
    var internalVersion: map<Path, nat>
    var reportedDiagnosticVersions: map<Path, nat>
    ghost var published: seq<Publication>  // the calls of onDiagnosticsReady

    constructor ()
      ensures internalVersion == START.internal && reportedDiagnosticVersions == START.reported
      ensures published == START.published
    {
      internalVersion, reportedDiagnosticVersions, published := map[], map[], [];
    }

    /** The increment in addDocument and removeDocument. */
    method NextVersion(file: Path) returns (version: nat)
      modifies this`internalVersion
      ensures internalVersion == Bump(old(internalVersion), file)
      ensures version == internalVersion[file]
    {
      if file !in internalVersion {
        internalVersion := internalVersion[file := 0];
      }
      version := (internalVersion[file] + 1) % VERSIONS;
      internalVersion := internalVersion[file := version];
    }

    method ConsumeDiagnostics(file: Path, version: nat, diags: Diags)
      modifies this`reportedDiagnosticVersions, this`published
      ensures (reportedDiagnosticVersions, published) ==
              Filter(old(reportedDiagnosticVersions), old(published), Publication(file, version, diags))
    {
      if file !in reportedDiagnosticVersions {
        reportedDiagnosticVersions := reportedDiagnosticVersions[file := 0];
      }
      assert reportedDiagnosticVersions == old(reportedDiagnosticVersions)[file := Get(old(reportedDiagnosticVersions), file)];
      if version < reportedDiagnosticVersions[file] {
        return;
      }
      reportedDiagnosticVersions := reportedDiagnosticVersions[file := version];
      assert reportedDiagnosticVersions == old(reportedDiagnosticVersions)[file := version];
      published := published + [Publication(file, version, diags)];
    }
  }
}
