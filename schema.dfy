/** The semantic-object schema: the allowed enum values, the resolution of
    legacy key names, and validation. */
module Schema {
  import opened Values

  const ValidDomains: set<string> := {"symptom", "food", "emotion", "mind"}
  const ValidPolarity: set<string> := {"present", "absent", "uncertain"}
  const ValidTimeBuckets: set<string> := {"today", "last_night", "past_week", "unknown"}
  const ValidIntensityLevels: set<string> := {"low", "medium", "high", "unknown"}
  const ValidConfidence: set<string> := {"high", "medium", "low"}

  /** The fields every object must carry, in the order they are checked. */
  const RequiredFields: seq<string> := ["domain", "evidence_text", "polarity", "time_bucket"]

  // ---------------------------------------------------------------------
  // Legacy key resolution
  // ---------------------------------------------------------------------

  /** `normalize_keys`: a copy of `o` in which `evidence_span` stands in for a
      missing `evidence_text`, and `intensity_bucket` for a missing
      `intensity_level`. */
  function NormalizeKeys(o: SemObj): (r: SemObj)
    ensures forall k :: k in o ==> k in r && r[k] == o[k]
    ensures r.Keys == o.Keys
      + (if "evidence_text" !in o && "evidence_span" in o then {"evidence_text"} else {})
      + (if "intensity_level" !in o && "intensity_bucket" in o then {"intensity_level"} else {})
    ensures "evidence_text" !in o && "evidence_span" in o ==> r["evidence_text"] == o["evidence_span"]
    ensures "intensity_level" !in o && "intensity_bucket" in o ==> r["intensity_level"] == o["intensity_bucket"]
  {
    var withEvidence :=
      if "evidence_text" !in o && "evidence_span" in o then o["evidence_text" := o["evidence_span"]] else o;
    if "intensity_level" !in withEvidence && "intensity_bucket" in withEvidence
    then withEvidence["intensity_level" := withEvidence["intensity_bucket"]]
    else withEvidence
  }

  lemma NormalizeKeysIdempotent(o: SemObj)
    ensures NormalizeKeys(NormalizeKeys(o)) == NormalizeKeys(o)
  {
    var n := NormalizeKeys(o);
    assert NormalizeKeys(n).Keys == n.Keys;
  }

  // ---------------------------------------------------------------------
  // Validation
  // ---------------------------------------------------------------------

  /** What a valid object is, field by field (after normalisation). */
  predicate Conforms(n: SemObj) {
    && (forall f :: f in RequiredFields ==> f in n)
    && n["domain"].Str? && n["domain"].s in ValidDomains
    && n["polarity"].Str? && n["polarity"].s in ValidPolarity
    && n["time_bucket"].Str? && n["time_bucket"].s in ValidTimeBuckets
    && ("intensity_level" in n ==> n["intensity_level"].Str? && n["intensity_level"].s in ValidIntensityLevels)
    && ("confidence" in n && n["confidence"].Str? ==> n["confidence"].s in ValidConfidence)
    && n["evidence_text"].Str? && !IsBlank(n["evidence_text"].s)
  }

  /** The fields whose value is looked up in an enum set. */
  const EnumFields: set<string> := {"domain", "polarity", "time_bucket", "intensity_level"}

  /** `validate_object`: early-return checks on the normalised object. Looking
      up an array or object in an enum set raises, since it cannot be hashed. */
  function ValidateObject(o: SemObj): (r: Result<bool>)
    ensures r == Ok(true) <==> Conforms(NormalizeKeys(o))
    ensures (exists f :: f in RequiredFields && f !in NormalizeKeys(o)) ==> r == Ok(false)
    ensures r.Err? ==> exists f :: f in EnumFields && f in NormalizeKeys(o) && NormalizeKeys(o)[f].Composite?
  {
    var n := NormalizeKeys(o);
    if exists f :: f in RequiredFields && f !in n then Ok(false)
    else
      var domainOk :- InNames(n["domain"], ValidDomains);
      if !domainOk then Ok(false)
      else
        var polarityOk :- InNames(n["polarity"], ValidPolarity);
        if !polarityOk then Ok(false)
        else
          var timeOk :- InNames(n["time_bucket"], ValidTimeBuckets);
          if !timeOk then Ok(false)
          else
            var intensityOk :- if "intensity_level" in n then InNames(n["intensity_level"], ValidIntensityLevels) else Ok(true);
            if !intensityOk then Ok(false)
            else if "confidence" in n && n["confidence"].Str? && n["confidence"].s !in ValidConfidence then Ok(false)
            else Ok(n["evidence_text"].Str? && !IsBlank(n["evidence_text"].s))
  }

  /** Validation normalises first, so normalising beforehand changes nothing. */
  lemma ValidateIgnoresNormalization(o: SemObj)
    ensures ValidateObject(NormalizeKeys(o)) == ValidateObject(o)
  {
    NormalizeKeysIdempotent(o);
  }
}
