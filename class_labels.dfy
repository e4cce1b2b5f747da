/**
 * `CLASS_MAP` and `normalize_bgc_class_string`: exact, case-sensitive lookup
 * of a raw BGC class label's canonical name.
 */
module ClassLabels {
  import opened Wrappers
  import ClassDistribution

  /** Raw class label to canonical class name. */
  const ClassMap: map<string, string> := map[
    "NRPS" := "NRP",
    "PKS" := "Polyketide",
    "other" := "Other",
    "ribosomal" := "RiPP",
    "saccharide" := "Saccharide",
    "terpene" := "Terpene",
    "alkaloid" := "Alkaloid"
  ]

  /** The canonical class names. */
  const CanonicalClasses: set<string> := {"NRP", "Polyketide", "Other", "RiPP", "Saccharide", "Terpene", "Alkaloid"}

  /** The canonical name of `raw` when it is exactly one of the mapped labels, otherwise None. */
  function NormalizeBgcClassString(raw: string): (r: Option<string>)
    ensures r.Some? <==> raw in ClassMap.Keys
    ensures r.Some? ==> r.value in CanonicalClasses
  {
    if raw in ClassMap then Some(ClassMap[raw]) else None
  }

  /** Each mapped label yields its canonical name. */
  lemma KnownLabels()
    ensures NormalizeBgcClassString("NRPS") == Some("NRP")
    ensures NormalizeBgcClassString("PKS") == Some("Polyketide")
    ensures NormalizeBgcClassString("other") == Some("Other")
    ensures NormalizeBgcClassString("ribosomal") == Some("RiPP")
    ensures NormalizeBgcClassString("saccharide") == Some("Saccharide")
    ensures NormalizeBgcClassString("terpene") == Some("Terpene")
    ensures NormalizeBgcClassString("alkaloid") == Some("Alkaloid")
  {
  }

  /** Matching is case-sensitive: a label that differs only in case is not mapped. */
  lemma CaseSensitive()
    ensures NormalizeBgcClassString("nrps").None?
    ensures NormalizeBgcClassString("Terpene").None?
  {
    assert "nrps" != "NRPS" by {
      assert "nrps"[0] != "NRPS"[0];
    }
  }

  /** Every canonical name is produced by some label, so the result set is exactly `CanonicalClasses`. */
  lemma CanonicalClassesReached(name: string)
    requires name in CanonicalClasses
    ensures exists raw :: NormalizeBgcClassString(raw) == Some(name)
  {
    KnownLabels();
  }

  /** The raw map and the fold list of the class distribution helper name the same pairs. */
  lemma AgreesWithFoldPairs()
    ensures forall i :: 0 <= i < |ClassDistribution.FoldPairs| ==>
      NormalizeBgcClassString(ClassDistribution.FoldPairs[i].0) == Some(ClassDistribution.FoldPairs[i].1)
    ensures forall raw :: raw in ClassMap ==>
      exists i :: 0 <= i < |ClassDistribution.FoldPairs| && ClassDistribution.FoldPairs[i].0 == raw
  {
    forall raw | raw in ClassMap
      ensures exists i :: 0 <= i < |ClassDistribution.FoldPairs| && ClassDistribution.FoldPairs[i].0 == raw
    {
      var pairs := ClassDistribution.FoldPairs;
      if raw == "NRPS" { assert pairs[0].0 == raw; }
      else if raw == "PKS" { assert pairs[1].0 == raw; }
      else if raw == "other" { assert pairs[2].0 == raw; }
      else if raw == "ribosomal" { assert pairs[3].0 == raw; }
      else if raw == "saccharide" { assert pairs[4].0 == raw; }
      else if raw == "terpene" { assert pairs[5].0 == raw; }
      else { assert pairs[6].0 == raw; }
    }
  }
}
