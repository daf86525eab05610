/** The content-safety policy sent with every analysis request. */
module Safety {

  /** The harm categories the policy names. */
  datatype HarmCategory = HateSpeech | DangerousContent | SexuallyExplicit | Harassment

  /** Blocking thresholds of the model service, strictest first. */
  datatype HarmBlockThreshold = BlockLowAndAbove | BlockMediumAndAbove | BlockOnlyHigh | BlockNone

  datatype SafetySetting = SafetySetting(category: HarmCategory, threshold: HarmBlockThreshold)

  const AllCategories: set<HarmCategory> := {HateSpeech, DangerousContent, SexuallyExplicit, Harassment}

  /** `get_safety_settings()`: one entry per harm category, none repeated, and
      every entry blocking nothing. */
  function SafetySettings(): (r: seq<SafetySetting>)
    ensures |r| == 4
    ensures forall i :: 0 <= i < |r| ==> r[i].threshold == BlockNone
    ensures forall i, j :: 0 <= i < j < |r| ==> r[i].category != r[j].category
    ensures (set i | 0 <= i < |r| :: r[i].category) == AllCategories
  {
    var r := [ SafetySetting(HateSpeech, BlockNone),
               SafetySetting(DangerousContent, BlockNone),
               SafetySetting(SexuallyExplicit, BlockNone),
               SafetySetting(Harassment, BlockNone) ];
    assert forall c :: c in AllCategories ==> r[CategoryIndex(c)].category == c;
    r
  }

  /** Where each category stands in the policy list. */
  function CategoryIndex(c: HarmCategory): (i: nat)
    ensures i < 4
  {
    match c
    case HateSpeech => 0
    case DangerousContent => 1
    case SexuallyExplicit => 2
    case Harassment => 3
  }
}
