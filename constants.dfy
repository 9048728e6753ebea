/** The format tables and the conversion-pair validator of src/lib/constants.ts. */
module Constants {
  import opened Text

  /** Extensions a conversion may start from, in the order the site lists them. */
  const SupportedInputs: seq<string> := ["jpg", "jpeg", "png", "webp", "avif", "heic"]

  /** Extensions a conversion may produce. */
  const SupportedOutputs: seq<string> := ["jpg", "jpeg", "png", "webp"]

  /** Media type per input extension. */
  const MimeTypes: map<string, string> := map[
    "jpg" := "image/jpeg",
    "jpeg" := "image/jpeg",
    "png" := "image/png",
    "webp" := "image/webp",
    "avif" := "image/avif",
    "heic" := "image/heic"
  ]

  /** `isValidFormat(source, target)`: an early-return chain of checks on the
      lower-cased arguments. */
  predicate IsValidFormat(source: string, target: string) {
    if source == "" || target == "" then false
    else
      var cleanSource := Lower(source);
      var cleanTarget := Lower(target);
      if cleanSource !in SupportedInputs then false
      else if cleanTarget !in SupportedOutputs then false
      else if cleanSource == cleanTarget then false
      else true
  }

  /** The four conditions that together decide a pair. */
  lemma IsValidFormatCharacterised(source: string, target: string)
    ensures IsValidFormat(source, target) <==>
      && source != ""
      && target != ""
      && Lower(source) in SupportedInputs
      && Lower(target) in SupportedOutputs
      && Lower(source) != Lower(target)
  {
  }

  lemma LowerEmpty(s: string)
    ensures Lower(s) == "" <==> s == ""
  {
  }

  /** The verdict depends only on the lower-cased arguments. */
  lemma IsValidFormatCaseInsensitive(source: string, target: string)
    ensures IsValidFormat(source, target) == IsValidFormat(Lower(source), Lower(target))
  {
    LowerIdempotent(source);
    LowerIdempotent(target);
    LowerEmpty(source);
    LowerEmpty(target);
  }

  lemma EmptyArgumentRejected(s: string)
    ensures !IsValidFormat("", s) && !IsValidFormat(s, "")
  {
  }

  /** Converting a format to itself is never valid, in any letter case. */
  lemma IdentityRejected(source: string, target: string)
    requires Lower(source) == Lower(target)
    ensures !IsValidFormat(source, target)
  {
  }

  /** "heic" and "avif" can be read but never produced. */
  lemma InputOnlyFormatsNeverTargets(source: string, target: string)
    requires Lower(target) == "heic" || Lower(target) == "avif"
    ensures !IsValidFormat(source, target)
  {
  }

  /** "jpg" and "jpeg" are distinct strings, so a rename between the two
      JPEG spellings, in any letter case, is a valid pair. */
  lemma JpgToJpegAccepted(source: string, target: string)
    requires (Lower(source) == "jpg" && Lower(target) == "jpeg")
          || (Lower(source) == "jpeg" && Lower(target) == "jpg")
    ensures IsValidFormat(source, target)
  {
    LowerEmpty(source);
    LowerEmpty(target);
  }

  /** Every input has a media type, and the two JPEG spellings share one. */
  lemma MimeTypesCoverInputs()
    ensures forall s :: s in SupportedInputs ==> s in MimeTypes
    ensures MimeTypes["jpg"] == MimeTypes["jpeg"] == "image/jpeg"
  {
  }

  /** Every output can also be read. */
  lemma OutputsAreInputs()
    ensures forall t :: t in SupportedOutputs ==> t in SupportedInputs
  {
  }

  /** No extension in the tables holds a '-', so "-to-" can separate a pair. */
  lemma TablesHoldNoDash()
    ensures forall s :: s in SupportedInputs ==> Excludes(s, '-')
    ensures forall t :: t in SupportedOutputs ==> Excludes(t, '-')
  {
  }

  /** A valid pair holds no '-' in either argument, whatever its letter case. */
  lemma ValidPairHasNoDash(source: string, target: string)
    requires IsValidFormat(source, target)
    ensures Excludes(source, '-') && Excludes(target, '-')
  {
    TablesHoldNoDash();
    assert Excludes(Lower(source), '-');
    assert Excludes(Lower(target), '-');
    forall i | 0 <= i < |source| ensures source[i] != '-' {
      assert Lower(source)[i] == LowerChar(source[i]);
    }
    forall i | 0 <= i < |target| ensures target[i] != '-' {
      assert Lower(target)[i] == LowerChar(target[i]);
    }
  }
}
