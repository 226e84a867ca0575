# SpookCam rectangle selection, in Dafny

SpookCam's image pre-processor runs a rectangle detector over a photograph and
then keeps one of the detected quadrilaterals, the "biggest rectangle", to crop
the picture to. This project models that selection rule,
`ImagePreProcessor.biggestRectangle(inRectangles:inImage:)`, and proves what it
chooses.

The rule, as the source performs it:

- an empty list of candidates gives no rectangle;
- otherwise the first candidate is the default winner, and the running best
  "half perimeter" starts at 0;
- every candidate, in order, gets `width = |topRight - topLeft|`,
  `height = |bottomLeft - topLeft|` and score `width + height`;
- a candidate replaces the winner only when its score is strictly greater
  than the running best and `height < width / 2`.

`ImagePreProcessor.dfy` holds one module with:

- the data model: `Point` (real coordinates) and `RectangleFeature` (the four
  corners of a detected quadrilateral);
- the scoring of one candidate: `Width`, `Height`, `HalfPerimeter`,
  `PassesAspectGate`, `Eligible` (passes the gate with a positive score).
  Edge lengths are computed by `hypot`, a parameter of type
  `(real, real) -> real` standing for the platform's `hypotf`. Every result
  holds for any such function;
- a functional specification of the selection: `BestHalfPerimeter` (the
  largest gate-passing score, or 0), `FirstReaching` (the first gate-passing
  candidate with a given score), `BiggestIndex` (the chosen position) and
  `Biggest` (the chosen candidate);
- a declarative statement of the rule, `IsBiggest`, which is proved to pick
  out exactly the position that `BiggestIndex` returns;
- the scan itself, `BiggestRectangle`, a method with the source's loop, two
  running variables and loop invariants. It is proved to return `Biggest`;
- lemmas for the promised behaviour: single candidates, ties, the strict
  aspect gate, the two-candidate cases, and independence from the
  bottom-right corner.

## Model

| member | source | states |
|---|---|---|
| ImagePreProcessor.Width | SpookCam/ImagePreProcessor.swift:147-149 | Definition without a contract: the width is the length of the displacement from topLeft to topRight. |
| ImagePreProcessor.Height | SpookCam/ImagePreProcessor.swift:151-153 | Definition without a contract: the height is the length of the displacement from topLeft to bottomLeft. |
| ImagePreProcessor.HalfPerimeter | SpookCam/ImagePreProcessor.swift:155 | Definition without a contract: the score is width plus height. |
| ImagePreProcessor.PassesAspectGate | SpookCam/ImagePreProcessor.swift:157 | Definition without a contract: the strict aspect gate, height below half the width. |
| ImagePreProcessor.Eligible | SpookCam/ImagePreProcessor.swift:155-159 | Definition without a contract: what a winner other than the first must satisfy, passing the gate with a score above the initial running best of 0. |
| ImagePreProcessor.IsBiggest | SpookCam/ImagePreProcessor.swift:144-164 | Definition without a contract: the declarative rule for the chosen position, used as the reference the selection is proved against. |
| ImagePreProcessor.BiggestRectangle | SpookCam/ImagePreProcessor.swift:140-165 | The scan returns nothing exactly for an empty list, and otherwise the candidate that the functional specification `Biggest` selects; the loop invariants keep the running value equal to the best gate-passing score so far (or 0) and the winner equal to the earliest candidate reaching it (or the first one). |
| ImagePreProcessor.BestHalfPerimeter | SpookCam/ImagePreProcessor.swift:144-158 | The running best is never negative and is at least the score of every gate-passing candidate. |
| ImagePreProcessor.BestHalfPerimeterReached | SpookCam/ImagePreProcessor.swift:155-159 | A positive running best is the score of some gate-passing candidate, so the running best only ever takes values of candidates that replaced the winner. |
| ImagePreProcessor.FirstReaching | SpookCam/ImagePreProcessor.swift:146-163 | The position found is the first gate-passing candidate with the given score, or the end of the list when there is none. |
| ImagePreProcessor.BiggestIndex | SpookCam/ImagePreProcessor.swift:141-145 | No position exactly for an empty list; for a non-empty list always a position inside it. |
| ImagePreProcessor.Biggest | SpookCam/ImagePreProcessor.swift:141-164 | No rectangle exactly for an empty list; otherwise always one of the candidates, never nothing. |
| ImagePreProcessor.BestHalfPerimeterSnoc | SpookCam/ImagePreProcessor.swift:155-159 | Scanning one more candidate raises the best to its score exactly when it passes the gate and beats the old best strictly; otherwise the best is unchanged. |
| ImagePreProcessor.FirstReachingSnoc | SpookCam/ImagePreProcessor.swift:157-159 | Scanning one more candidate never moves an earlier first match; without one, the new candidate becomes the first match if it matches. |
| ImagePreProcessor.SelectionIsBiggest | SpookCam/ImagePreProcessor.swift:144-164 | The chosen position satisfies the declarative rule: if a candidate passes the gate with a positive score, the winner does too, no gate-passing candidate scores more, and every earlier gate-passing candidate scores strictly less; otherwise the first candidate wins. |
| ImagePreProcessor.BiggestIsUnique | SpookCam/ImagePreProcessor.swift:144-164 | At most one position satisfies the declarative rule. |
| ImagePreProcessor.BiggestIndexCharacterized | SpookCam/ImagePreProcessor.swift:144-164 | A position satisfies the declarative rule if and only if it is the chosen position. |
| ImagePreProcessor.SingleCandidate | SpookCam/ImagePreProcessor.swift:145-157 | A list of one candidate selects it whatever its shape, since it is the default winner even when it fails the gate. |
| ImagePreProcessor.DefaultOrEligible | SpookCam/ImagePreProcessor.swift:155-159 | The winner is the first candidate or one that passes the gate with a positive score. |
| ImagePreProcessor.HalfHighOnlyByDefault | SpookCam/ImagePreProcessor.swift:157 | A candidate whose height is exactly half its width fails the strict gate and is never chosen unless it is the first. |
| ImagePreProcessor.WinnerHasLargestScore | SpookCam/ImagePreProcessor.swift:144-159 | Without an eligible candidate the first one is chosen; with one, the winner is eligible and no gate-passing candidate has a larger score. |
| ImagePreProcessor.TieKeepsEarlier | SpookCam/ImagePreProcessor.swift:157 | A gate-passing candidate whose score equals that of an earlier gate-passing candidate is never chosen, because the comparison is strict. |
| ImagePreProcessor.GateDecidesBetweenTwo | SpookCam/ImagePreProcessor.swift:155-159 | Of one eligible and one gate-failing candidate, the eligible one is chosen in either order. |
| ImagePreProcessor.LargerScoreWinsBetweenTwo | SpookCam/ImagePreProcessor.swift:155-159 | Of two gate-passing candidates, the one with the larger positive score is chosen in either order. |
| ImagePreProcessor.BottomRightIgnored | SpookCam/ImagePreProcessor.swift:146-153 | Two lists that agree on every topLeft, topRight and bottomLeft corner select the same position: bottomRight corners never influence the choice. |
| ImagePreProcessor.SameCornersSameBest | SpookCam/ImagePreProcessor.swift:147-158 | Lists that agree on the three scored corners have the same best score. |
| ImagePreProcessor.SameCornersSameFirst | SpookCam/ImagePreProcessor.swift:147-157 | Lists that agree on the three scored corners have the same first candidate reaching any given score. |

## Left out

- Floating-point arithmetic: `hypotf`, the `Float`/`CGFloat` conversions and the storage of the running best as a `Float` (lines 149, 153, 157-158) are modelled as exact reals; edge length is a parameter `hypot`, not a rounded square root. Because the running best is stored rounded to `Float` while each new score is compared as a `CGFloat`, a later candidate with exactly the same score can replace the winner when that rounding went down, and a later candidate with a strictly larger score can fail to replace it when that rounding went up. So `TieKeepsEarlier`, `WinnerHasLargestScore`, `LargerScoreWinsBetweenTwo`, `SelectionIsBiggest` and `BiggestRectangle` describe the rule in exact arithmetic only.
- The `inputImage` argument is accepted by `BiggestRectangle` as a value of an arbitrary type and never used, as in the source; its contract does not mention it, so the result cannot depend on it.
- The object identity of a detected feature: the source returns the feature object, the model returns the value; which position wins is given by `BiggestIndex`.
- The debugging `print` calls (lines 81, 160-161): console output.
- `scaleImage` (lines 13-33): PNG encoding and thumbnail generation are calls into the platform's image libraries.
- `convertImageToGrayScale` and `applyBlurEffect` (lines 35-65): thin wrappers over platform image filters.
- `detectRectangleAndCrop` (lines 67-91): runs the platform's rectangle detector and cropping; its own logic, giving no image when selection gives none (lines 78-80), is the empty-list case of `Biggest`.
- `cropImageForfeatureRectangle` and `unskewImage` (lines 93-138): perspective filters of the platform; `unskewImage` returns its input unchanged.
- SpookCam/ImageProcessor.h and SpookCam/LiveImageProcessor.h: interface declarations without bodies.
