/** The version resolver (`RequirementsGenerator.get_package_versions`). The host's
    package metadata is the injected `lookup`: `None` stands for a distribution that
    is not installed. */
module Versions {
  import opened Wrappers

  /** Stored in place of a version when the package metadata has none. */
  const Unknown := "Unknown"

  /** The version recorded for one package. */
  function VersionOf(lookup: string -> Option<string>, package: string): (r: string)
    ensures lookup(package).Some? ==> r == lookup(package).value
    ensures lookup(package).None? ==> r == Unknown
  {
    lookup(package).GetOr(Unknown)
  }

  /** The resolved mapping as a whole: one entry per collected name. */
  function Resolve(imports: set<string>, lookup: string -> Option<string>): map<string, string>
  {
    map p | p in imports :: VersionOf(lookup, p)
  }

  /** `get_package_versions`: visits the collected names in whatever order the set
      yields them and records each one's installed version, or `Unknown`. */
  method ResolveVersions(imports: set<string>, lookup: string -> Option<string>) returns (versions: map<string, string>)
    ensures versions.Keys == imports
    ensures forall p :: p in versions && lookup(p).Some? ==> versions[p] == lookup(p).value
    ensures forall p :: p in versions && lookup(p).None? ==> versions[p] == Unknown
    ensures versions == Resolve(imports, lookup)
  {
    versions := map[];
    var remaining := imports;
    while remaining != {}
      invariant remaining <= imports
      invariant versions.Keys == imports - remaining
      invariant forall p :: p in versions ==> versions[p] == VersionOf(lookup, p)
      decreases remaining
    {
      var p :| p in remaining;
      versions := versions[p := VersionOf(lookup, p)];
      remaining := remaining - {p};
    }
  }

  /** An entry reads `Unknown` exactly when the lookup missed, or when the installed
      version is itself the text `Unknown`. */
  lemma UnknownIffMissed(imports: set<string>, lookup: string -> Option<string>, p: string)
    requires p in imports
    ensures Resolve(imports, lookup)[p] == Unknown <==> lookup(p) == None || lookup(p) == Some(Unknown)
  {
  }

  /** Entries are independent: resolving two groups of names separately and merging
      gives the mapping of the whole, so the visiting order cannot matter. */
  lemma ResolveSplits(a: set<string>, b: set<string>, lookup: string -> Option<string>)
    ensures Resolve(a + b, lookup) == Resolve(a, lookup) + Resolve(b, lookup)
  {
    var whole := Resolve(a + b, lookup);
    var merged := Resolve(a, lookup) + Resolve(b, lookup);
    assert whole.Keys == merged.Keys;
    forall p | p in whole ensures whole[p] == merged[p] {
    }
  }
}
