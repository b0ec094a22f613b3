// Version names and the packages they belong to (PackageURNOf in internal/query/audit.go, VersionURN
// in internal/graph/id.go).
module Packages {
  import opened Text
  import opened Snapshot

  // Cuts at the last '@', since a scoped name begins with another.
  function PackageOf(version: Urn): string {
    var at := LastIndexOf(version, '@');
    if at <= 0 then "" else version[..at]
  }

  function VersionUrn(pkg: string, version: string): Urn {
    pkg + "@" + version
  }

  // The cut undoes the join exactly when the version part has no '@'.
  lemma PackageOfVersionUrn(pkg: string, version: string)
    ensures PackageOf(VersionUrn(pkg, version)) == pkg <==> '@' !in version
  {
    var urn := VersionUrn(pkg, version);
    var at := LastIndexOf(urn, '@');
    assert urn[|pkg|] == '@';
    if '@' !in version {
      assert at == |pkg| by {
        forall k | |pkg| < k < |urn| ensures urn[k] != '@' {
          assert urn[k] == version[k - |pkg| - 1];
        }
      }
      assert urn[..at] == pkg;
    } else {
      var k :| 0 <= k < |version| && version[k] == '@';
      assert urn[|pkg| + 1 + k] == '@';
      assert at > |pkg|;
    }
  }

  ghost function PackagesOf(versions: set<Urn>): set<string> {
    set v | v in versions && PackageOf(v) != "" :: PackageOf(v)
  }
}
