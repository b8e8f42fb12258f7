/**
  The logic of the `/verify` request handler, once the request has been
  parsed: the reference-number check, the file ID of the reference
  signature, the score rounded to two decimals of a percent, and the
  three-way classification.
*/
module Verification {

  import opened Wrappers
  import DriveLinks
  import Similarity

  /** The classification of the response. */
  datatype Label = Matched | ManualCheckRecommended | NotMatched

  /** The text of a label, as the response carries it. */
  function LabelText(l: Label): string
  {
    match l
    case Matched => "Matched"
    case ManualCheckRecommended => "Manual Check Recommended"
    case NotMatched => "Not Matched"
  }

  /** Distinct labels have distinct texts. */
  lemma LabelTextInjective(a: Label, b: Label)
    ensures LabelText(a) == LabelText(b) ==> a == b
  {
  }

  /** The bands in order of similarity. */
  function Rank(l: Label): nat
  {
    match l
    case NotMatched => 0
    case ManualCheckRecommended => 1
    case Matched => 2
  }

  /**
    The `if/elif/else` chain on the percentage: above 55 is a match, 40 to
    55 (both ends included) asks for a manual check, below 40 is no match.
  */
  function Classify(percentage: real): (l: Label)
    ensures l == Matched <==> percentage > 55.0
    ensures l == ManualCheckRecommended <==> 40.0 <= percentage <= 55.0
    ensures l == NotMatched <==> percentage < 40.0
  {
    if percentage > 55.0 then Matched
    else if 40.0 <= percentage <= 55.0 then ManualCheckRecommended
    else NotMatched
  }

  /** A higher percentage never gets a lower band. */
  lemma ClassifyMonotone(low: real, high: real)
    requires low <= high
    ensures Rank(Classify(low)) <= Rank(Classify(high))
  {
  }

  /** The boundaries at two decimals. */
  lemma ClassifyBoundaries()
    ensures Classify(55.01) == Matched
    ensures Classify(55.00) == ManualCheckRecommended
    ensures Classify(40.00) == ManualCheckRecommended
    ensures Classify(39.99) == NotMatched
  {
  }

  /**
    `round(x, 2)` of an exact value, as a whole number of hundredths: the
    nearest one, and of two equally near the even one.
  */
  function RoundHundredths(x: real): (k: int)
    ensures k as real - 0.5 <= x * 100.0 <= k as real + 0.5
    ensures x * 100.0 == k as real - 0.5 || x * 100.0 == k as real + 0.5 ==> k % 2 == 0
  {
    var y := x * 100.0;
    var n := y.Floor;
    var f := y - n as real;
    if f < 0.5 then n
    else if f > 0.5 then n + 1
    else if n % 2 == 0 then n
    else n + 1
  }

  /** The two properties of `RoundHundredths` determine its result. */
  lemma RoundHundredthsUnique(x: real, k: int)
    requires k as real - 0.5 <= x * 100.0 <= k as real + 0.5
    requires x * 100.0 == k as real - 0.5 || x * 100.0 == k as real + 0.5 ==> k % 2 == 0
    ensures k == RoundHundredths(x)
  {
  }

  /** Rounding is monotone. */
  lemma RoundHundredthsMonotone(x: real, y: real)
    requires x <= y
    ensures RoundHundredths(x) <= RoundHundredths(y)
  {
  }

  /** `round(similarity * 100, 2)`. */
  function SimilarityPercentage(similarity: real): (p: real)
    requires 0.0 <= similarity <= 1.0
    ensures 0.0 <= p <= 100.0
    ensures similarity * 100.0 - 0.005 <= p <= similarity * 100.0 + 0.005
  {
    RoundHundredths(similarity * 100.0) as real / 100.0
  }

  /** A higher similarity never gets a lower band. */
  lemma ClassificationMonotone(low: real, high: real)
    requires 0.0 <= low <= high <= 1.0
    ensures Rank(Classify(SimilarityPercentage(low))) <= Rank(Classify(SimilarityPercentage(high)))
  {
    RoundHundredthsMonotone(low * 100.0, high * 100.0);
    ClassifyMonotone(SimilarityPercentage(low), SimilarityPercentage(high));
  }

  /** The response body of a successful request. */
  datatype ScoreRecord = ScoreRecord(similarityScore: real, classification: Label)

  /**
    The error responses of the handler after parsing; `ExtractFailed`
    stands for the `IndexError` that `extract_file_id` would raise.
  */
  datatype VerifyError = InvalidReference | ExtractFailed | ImageLoadError

  /** The check `reference_number in drive_links` and the ID of that reference's file. */
  function ReferenceFileId(reference: int): (r: Result<string, VerifyError>)
    ensures r.Success? <==> 1 <= reference <= 7
    ensures r.Failure? ==> r.error == InvalidReference
    ensures r.Success? ==> |r.value| == 33 && DriveLinks.Links[reference] == DriveLinks.ShareLink(r.value)
  {
    DriveLinks.LinkKeys();
    DriveLinks.TableIds();
    if reference !in DriveLinks.Links then Failure(InvalidReference)
    else
      match DriveLinks.ExtractFileId(DriveLinks.Links[reference])
      case Success(id) => Success(id)
      case Failure(_) => Failure(ExtractFailed)
  }

  /**
    What OpenCV makes of the two loaded images: whether each yielded
    descriptors, and the distances of the cross-checked matches.
  */
  datatype Detection = Detection(des1Missing: bool, des2Missing: bool, distances: seq<nat>)

  /**
    `verify_signature` after the form has been read: `imagesLoaded` is
    whether `cv2.imread` read both the upload and the downloaded reference.
  */
  function VerifySignature(reference: int, imagesLoaded: bool, detection: Detection): (r: Result<ScoreRecord, VerifyError>)
    ensures !(1 <= reference <= 7) ==> r == Failure(InvalidReference)
    ensures 1 <= reference <= 7 && !imagesLoaded ==> r == Failure(ImageLoadError)
    ensures 1 <= reference <= 7 && imagesLoaded ==> r.Success?
    ensures r.Success? ==> 0.0 <= r.value.similarityScore <= 100.0
    ensures r.Success? ==> r.value.classification == Classify(r.value.similarityScore)
    ensures 1 <= reference <= 7 && imagesLoaded ==>
      r.value.similarityScore == SimilarityPercentage(
        if detection.des1Missing || detection.des2Missing then 0.0
        else Similarity.Ratio(
          |Similarity.GoodMatches(detection.distances, Similarity.DefaultThreshold)|, |detection.distances|))
  {
    Similarity.SortDoesNotMatter(
      detection.des1Missing, detection.des2Missing, detection.distances, Similarity.DefaultThreshold);
    var fileId :- ReferenceFileId(reference);
    if !imagesLoaded then Failure(ImageLoadError)
    else
      var similarity := Similarity.OrbSimilarity(
        detection.des1Missing, detection.des2Missing, detection.distances, Similarity.DefaultThreshold);
      var percentage := SimilarityPercentage(similarity);
      Success(ScoreRecord(percentage, Classify(percentage)))
  }

  /**
    Matches that are all closer than the default threshold, as for an
    image compared with itself, score 100.00 and are "Matched".
  */
  lemma AllCloseMatchesMatch(reference: int, distances: seq<nat>)
    requires 1 <= reference <= 7 && |distances| > 0
    requires forall i :: 0 <= i < |distances| ==> distances[i] < Similarity.DefaultThreshold
    ensures VerifySignature(reference, true, Detection(false, false, distances)) == Success(ScoreRecord(100.0, Matched))
  {
    Similarity.SimilarityIsOne(false, false, distances, Similarity.DefaultThreshold);
    RoundHundredthsUnique(100.0, 10000);
  }

  /** An image without descriptors, such as a blank one, scores 0.00 and is "Not Matched". */
  lemma NoDescriptorsNoMatch(reference: int, des1Missing: bool, des2Missing: bool, distances: seq<nat>)
    requires 1 <= reference <= 7 && (des1Missing || des2Missing)
    ensures VerifySignature(reference, true, Detection(des1Missing, des2Missing, distances)) == Success(ScoreRecord(0.0, NotMatched))
  {
    RoundHundredthsUnique(0.0, 0);
  }
}
