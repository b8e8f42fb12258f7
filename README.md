# Signature verification service: the scoring and classification logic

The service answers `POST /verify` with an uploaded document image and a
reference number. It looks the number up in a fixed table of seven Google
Drive sharing links, extracts the file ID from the link, downloads that
reference signature, compares the two images with ORB keypoint matching,
and returns the similarity as a percentage rounded to two decimals with one
of three labels: "Matched", "Manual Check Recommended" or "Not Matched".

This Dafny project models the parts of `app.py` that are logic rather than
I/O:

- `strings.dfy` (module `Strings`): Python's `str.split(sep)` for a
  non-empty separator. `Find` gives the leftmost occurrence, `Split` cuts
  there and goes on with the rest, and `Join` is its inverse.
- `drive.dfy` (module `DriveLinks`): the `drive_links` table and
  `extract_file_id`, that is `url.split("/d/")[1].split("/view")[0]`. The
  Python `IndexError` for a link without `"/d/"` becomes the error value
  `IndexError`.
- `similarity.dfy` (module `Similarity`): the part of `orb_similarity`
  after OpenCV. The inputs say whether each descriptor set is missing and
  give the Hamming distances of the cross-checked matches. The model sorts
  the distances by insertion, filters those below the threshold (default
  50), and returns `|good| / |matches|`, or 0. The ratio is an exact `real`.
- `verification.dfy` (module `Verification`): the request handler after
  parsing. It checks the reference number, takes the file ID, handles the
  image-loading error, rounds `similarity * 100` to two decimals, and
  classifies the result: above 55, from 40 to 55 inclusive, or below 40.
- `wrappers.dfy` (module `Wrappers`): `Option` and `Result`.

The seven links in `drive_links` all have the form
`https://drive.google.com/file/d/<ID>/view?usp=drive_link`. The model
stores the seven IDs in `ReferenceIds` and builds each link with
`ShareLink`. This gives exactly the strings of app.py:14-20.

## Model

| member | source | states |
|---|---|---|
| `Strings.Find` | app.py:25 | The result is the leftmost occurrence of the separator, where `str.split` cuts. None means the separator does not occur anywhere. |
| `Strings.SplitJoin` | app.py:25 | Joining the pieces of `s.split(sep)` with `sep` gives `s` back. |
| `Strings.SplitPiecesAreFree` | app.py:25 | No piece of a split contains the separator. |
| `Strings.SplitCount` | app.py:25 | A split has exactly one piece if and only if the separator does not occur. This is when `[1]` raises `IndexError`. |
| `Strings.SplitAtFirst` | app.py:25 | If the `sep` written after `a` is the leftmost occurrence, then splitting `a + sep + b` gives `a` followed by the split of `b`. |
| `Strings.SplitKeepsHead` | app.py:25 | If no occurrence starts inside `a`, the first piece of splitting `a + b` begins with all of `a`. |
| `DriveLinks.ExtractFileId` | app.py:24-25 | It fails (`IndexError`) if and only if the link has no `"/d/"`. A successful result contains neither `"/d/"` nor `"/view"`. |
| `DriveLinks.ExtractFileIdOfLink` | app.py:24-25 | Take `p + "/d/" + id + "/view" + q`. Suppose the `"/d/"` after `p` is the first one, no `"/d/"` lies in `id + "/"`, and `id` has no `"/view"`. Then the result is exactly `id`. |
| `DriveLinks.ShareLinkId` | app.py:13-25 | From a sharing link of the table's shape whose ID has no `/`, extraction returns that ID. |
| `DriveLinks.LinkKeys` | app.py:13-21 | The table's keys are exactly the reference numbers 1 to 7. |
| `DriveLinks.ReferenceIdsShape` | app.py:14-20 | Every file ID in the table has 33 characters and no `/`. |
| `DriveLinks.TableIds` | app.py:13-25 | Every link in the table yields its own 33-character file ID. |
| `Similarity.SortByDistance` | app.py:47 | The sorted matches are in ascending order of distance and are a permutation of the matches. |
| `Similarity.GoodMatches` | app.py:49 | The good matches are exactly the matches whose distance is below the threshold, each with its multiplicity. There are never more of them than matches. |
| `Similarity.Ratio` | app.py:50 | The ratio lies in [0, 1] and is 0 when there are no matches, so there is no division by zero. It is 1 exactly when every match is good, and 0 exactly when none is. |
| `Similarity.OrbSimilarity` | app.py:43-51 | The similarity lies in [0, 1]. It is 0 if either descriptor set is missing, whatever the threshold, and 0 for an empty match list. |
| `Similarity.GoodCountOfPermutation` | app.py:47-49 | The number of good matches depends only on the multiset of distances. |
| `Similarity.SortDoesNotMatter` | app.py:47-50 | The similarity equals the ratio computed on the unsorted matches. Sorting does not change it. |
| `Similarity.Symmetric` | app.py:46-50 | Swapping the two images gives the same mutual matches in some order, and the same similarity. |
| `Similarity.GoodCountMonotone` | app.py:49 | A higher threshold never lets fewer matches through. |
| `Similarity.ThresholdMonotone` | app.py:33-50 | Raising `distance_threshold` never decreases the similarity. |
| `Similarity.AllGood` | app.py:49 | Every match is good if and only if every distance is below the threshold. |
| `Similarity.NoneGood` | app.py:49 | No match is good if and only if no distance is below the threshold. |
| `Similarity.SimilarityIsOne` | app.py:43-50 | The similarity is exactly 1 if and only if both descriptor sets exist, there is at least one match, and every distance is below the threshold. |
| `Similarity.SimilarityIsZero` | app.py:43-50 | The similarity is exactly 0 if and only if a descriptor set is missing or no distance is below the threshold. |
| `Similarity.GoodMatchesArePrefix` | app.py:47-49 | In the sorted list, the good matches are a prefix of it. |
| `Verification.Classify` | app.py:86-91 | Each percentage gets exactly one label. Above 55 is "Matched". From 40 to 55, both included, is "Manual Check Recommended". Below 40 is "Not Matched". |
| `Verification.ClassifyMonotone` | app.py:86-91 | A higher percentage never gets a lower band. |
| `Verification.ClassifyBoundaries` | app.py:86-91 | 55.01 is "Matched". 55.00 and 40.00 are "Manual Check Recommended". 39.99 is "Not Matched". |
| `Verification.LabelTextInjective` | app.py:87-91 | The three label texts are distinct. |
| `Verification.RoundHundredths` | app.py:83 | `round(x, 2)` gives the nearest number of hundredths. Of two equally near, it gives the even one. |
| `Verification.RoundHundredthsUnique` | app.py:83 | Those two properties determine the rounded value. |
| `Verification.RoundHundredthsMonotone` | app.py:83 | Rounding preserves order. |
| `Verification.SimilarityPercentage` | app.py:83 | The rounded percentage lies in [0, 100] and within 0.005 of `similarity * 100`. |
| `Verification.ClassificationMonotone` | app.py:82-91 | A higher similarity never gets a lower band after rounding. |
| `Verification.ReferenceFileId` | app.py:62-70 | It succeeds if and only if the reference number is 1 to 7. Otherwise the error is `InvalidReference`, the "Invalid reference number" response. The ID it returns is the 33-character ID of that entry's link. |
| `Verification.VerifySignature` | app.py:62-91 | An invalid reference is rejected before anything else. A valid reference with an unreadable image gives `ImageLoadError`, the "Error loading images" response. A valid reference with both images loaded always succeeds. Its score is the rounded percentage of the good-match ratio of the unsorted matches (0 when a descriptor set is missing), in [0, 100], and its label is the label of that score. |
| `Verification.AllCloseMatchesMatch` | app.py:43-91 | Suppose every match is closer than 50, as when an image is compared with itself, and there is at least one match. Then the response is 100.00 and "Matched". |
| `Verification.NoDescriptorsNoMatch` | app.py:43-91 | An image without descriptors, such as a blank one, gives 0.00 and "Not Matched". |

## Left out

- HTTP layer: Flask routing, CORS, `app.run`, the JSON responses and their status codes (app.py:1-10, 54-57, 94-101). These are I/O. The check for missing form fields (app.py:56-57) and the `int(...)` parse of the reference number (app.py:60) are request parsing. Their failures never reach the modelled logic.
- Download and files: `gdown.download`, `image_file.save` and the fixed temporary file names (app.py:28-30, 66-72). These are network and file I/O, and the shared file names are a concurrency matter. The file ID that `ReferenceFileId` returns is the download's input. Whether `cv2.imread` read both images (app.py:75-79) is the parameter `imagesLoaded`.
- OpenCV: the grayscale conversion, `ORB_create`/`detectAndCompute` and the cross-checked `BFMatcher` (app.py:34-41, 46) are foreign library calls. Only their outputs are modelled, as `Detection`: whether each descriptor set is missing, and the match distances. `Similarity.Symmetric` assumes that matching the other way round gives the same distances. That is what mutual cross-checking means, but the library itself is not modelled.
- Matches are modelled by their distances only. The filter and the ratio use nothing else, and ORB distances are whole numbers of bits.
- Floating point: `similarity * 100`, the division and `round(..., 2)` (app.py:50, 83) are exact arithmetic on `real` here. `Verification.RoundHundredths` rounds the exact value half to even. Python rounds the nearest binary float, so it can differ at a tie that the float does not represent exactly.
- `ExtractFailed` stands for the uncaught `IndexError` at app.py:70. Flask would turn that into a server error. `ReferenceFileId` proves it never happens for the seven table entries.
- `Strings.Split`: only non-empty separators are modelled. The service splits only on `"/d/"` and `"/view"`. An empty separator makes Python raise `ValueError`.
