/** Preparing predictions for scoring: normalise each object's keys and keep
    only those whose evidence is present, grounded in the journal text, and
    schema-valid. */
module Run {
  import opened Values
  import opened Schema
  import opened Matcher
  import opened Scorer

  /** The evidence field of a normalised object, `""` when it is missing. */
  function EvidenceField(n: SemObj): Value {
    if "evidence_text" in n then n["evidence_text"] else Str("")
  }

  /** An object the filter lets through: string evidence that is not blank
      and occurs verbatim in the journal text. */
  predicate Grounded(n: SemObj, text: string) {
    "evidence_text" in n && n["evidence_text"].Str?
    && !IsBlank(n["evidence_text"].s) && IsSubstring(n["evidence_text"].s, text)
  }

  /** Whether the normalised form of `o` is kept. */
  function Admit(o: SemObj, text: string): (r: Result<bool>)
    ensures r == Ok(true) <==> Grounded(NormalizeKeys(o), text) && ValidateObject(NormalizeKeys(o)) == Ok(true)
  {
    var n := NormalizeKeys(o);
    var evi := EvidenceField(n);
    if !evi.Str? || IsBlank(evi.s) then Ok(false)
    else if !IsSubstring(evi.s, text) then Ok(false)
    else ValidateObject(n)
  }

  /** The reference filter: the normalised objects that are admitted, in
      their original order; the first validation that raises aborts. */
  function Kept(items: seq<SemObj>, text: string): Result<seq<SemObj>> {
    if items == [] then Ok([])
    else
      var keep :- Admit(items[0], text);
      var rest :- Kept(items[1..], text);
      Ok(if keep then [NormalizeKeys(items[0])] + rest else rest)
  }

  /** `prefix` followed by the outcome `r`, or the error of `r`. */
  function Prepend(prefix: seq<SemObj>, r: Result<seq<SemObj>>): Result<seq<SemObj>> {
    match r
    case Ok(rest) => Ok(prefix + rest)
    case Err(e) => Err(e)
  }

  /** `_normalize_and_filter`. */
  method NormalizeAndFilter(items: seq<SemObj>, text: string) returns (r: Result<seq<SemObj>>)
    ensures r == Kept(items, text)
  {
    var out: seq<SemObj> := [];
    assert items[0..] == items;
    assert Kept(items, text).Ok? ==> [] + Kept(items, text).value == Kept(items, text).value;
    for k := 0 to |items|
      invariant Kept(items, text) == Prepend(out, Kept(items[k..], text))
    {
      assert items[k..][0] == items[k] && items[k..][1..] == items[k + 1..];
      var norm := NormalizeKeys(items[k]);
      var evi := EvidenceField(norm);
      var pol := Get(norm, "polarity");
      if !evi.Str? || IsBlank(evi.s) {
        continue;
      }
      if !IsSubstring(evi.s, text) {
        continue;
      }
      if pol == Str("uncertain") && IsBlank(evi.s) {
        // blank evidence was skipped above
        assert false;
      }
      var valid := ValidateObject(norm);
      if valid.Err? {
        return Err(valid.error);
      }
      if valid.value {
        ghost var rest := Kept(items[k + 1..], text);
        assert rest.Ok? ==> (out + [norm]) + rest.value == out + ([norm] + rest.value);
        out := out + [norm];
      }
    }
    assert items[|items|..] == [] && out + [] == out;
    r := Ok(out);
  }

  // ---------------------------------------------------------------------
  // What the filter guarantees
  // ---------------------------------------------------------------------

  /** `xs` is `ys` with some elements left out, order kept. */
  predicate IsSubsequence(xs: seq<SemObj>, ys: seq<SemObj>) {
    if xs == [] then true
    else if ys == [] then false
    else (xs[0] == ys[0] && IsSubsequence(xs[1..], ys[1..])) || IsSubsequence(xs, ys[1..])
  }

  function NormalizeAll(items: seq<SemObj>): (r: seq<SemObj>)
    ensures |r| == |items| && forall k :: 0 <= k < |items| ==> r[k] == NormalizeKeys(items[k])
  {
    if items == [] then [] else [NormalizeKeys(items[0])] + NormalizeAll(items[1..])
  }

  lemma {:induction false} SubsequenceIsShorter(xs: seq<SemObj>, ys: seq<SemObj>)
    requires IsSubsequence(xs, ys)
    ensures |xs| <= |ys|
  {
    if xs != [] {
      if xs[0] == ys[0] && IsSubsequence(xs[1..], ys[1..]) {
        SubsequenceIsShorter(xs[1..], ys[1..]);
      } else {
        SubsequenceIsShorter(xs, ys[1..]);
      }
    }
  }

  /** Every object the filter outputs has non-blank string evidence that
      occurs in the journal text, and passes validation; the output is the
      normalised input with some objects left out, in order. */
  lemma {:induction false} KeptIsGroundedValidSubsequence(items: seq<SemObj>, text: string)
    requires Kept(items, text).Ok?
    ensures forall n :: n in Kept(items, text).value ==> Grounded(n, text) && ValidateObject(n) == Ok(true)
    ensures IsSubsequence(Kept(items, text).value, NormalizeAll(items))
    ensures |Kept(items, text).value| <= |items|
  {
    if items != [] {
      KeptIsGroundedValidSubsequence(items[1..], text);
      var out := Kept(items, text).value;
      var rest := Kept(items[1..], text).value;
      var all := NormalizeAll(items);
      assert all[1..] == NormalizeAll(items[1..]);
      if Admit(items[0], text) == Ok(true) {
        assert out == [all[0]] + rest;
        ValidateIgnoresNormalization(items[0]);
        assert out[1..] == rest;
      } else {
        assert out == rest;
        if rest != [] {
          assert IsSubsequence(rest, all[1..]);
        }
      }
      SubsequenceIsShorter(out, all);
    }
  }

  /** One step of the reference filter. */
  lemma KeptStep(items: seq<SemObj>, text: string)
    requires items != [] && Kept(items, text).Ok?
    ensures Admit(items[0], text).Ok? && Kept(items[1..], text).Ok?
    ensures Kept(items, text).value
         == (if Admit(items[0], text).value then [NormalizeKeys(items[0])] else []) + Kept(items[1..], text).value
  {
  }

  /** Conversely, every admitted object appears in the output. */
  lemma {:induction false} KeptIsComplete(items: seq<SemObj>, text: string, k: nat)
    requires Kept(items, text).Ok? && k < |items|
    requires Admit(items[k], text) == Ok(true)
    ensures NormalizeKeys(items[k]) in Kept(items, text).value
  {
    KeptStep(items, text);
    if k > 0 {
      assert items[1..][k - 1] == items[k];
      KeptIsComplete(items[1..], text, k - 1);
    }
  }

  /** The evidence of a kept object is what the scorer's coverage test
      reads, so a filtered prediction list has coverage 1. */
  lemma GroundedIsCovered(n: SemObj, text: string)
    requires Grounded(n, text)
    ensures Covered(n, text) == Ok(true)
  {
    assert Evidence(n) == n["evidence_text"];
  }

  lemma KeptIsFullyCovered(items: seq<SemObj>, text: string)
    requires Kept(items, text).Ok?
    ensures CoveredCount(Kept(items, text).value, text) == Ok(|Kept(items, text).value|)
  {
    var out := Kept(items, text).value;
    KeptIsGroundedValidSubsequence(items, text);
    forall k | 0 <= k < |out| ensures Covered(out[k], text) == Ok(true) {
      GroundedIsCovered(out[k], text);
    }
    CoveredCountAll(out, text);
  }
}
