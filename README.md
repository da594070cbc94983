# Licence-plate parking: a Dafny model of the plate pipeline and the session table

This project models the deterministic core of a parking system that reads licence plates from
camera images and charges by the minute. There are two parts:

* **The plate-string pipeline** of `backend/model/LPD2.py`:
  * choosing the best `plate` detection of at least 0.8 confidence;
  * clamping the inset crop window to the image;
  * merging several OCR readings by a per-position majority vote;
  * cleaning and normalising the text. The normalised text is ASCII alphanumeric, at most six
    characters long, and has a letter at index 1.
* **The `parking_logs` table** behind the `upload_entry`, `upload_exit` and `search_car` routes of
  `backend/app.py`:
  * an entry appends an open row;
  * an exit closes the open row of the plate with the latest entry time and charges
    `20 + 1 * minutes`. It replies 404 when the plate has no open row;
  * a search returns the rows of a plate.

Modules, one per component:

| file | module | what it holds |
|---|---|---|
| `wrappers.dfy` | `Wrappers` | `Option` |
| `plate_text.dfy` | `PlateText` | `clean_plate_string`, `enforce_second_alpha`, `enforce_plate_length`, their composition |
| `plate_vote.dfy` | `PlateVote` | collecting cleaned OCR readings and the per-character vote (imperative loops) |
| `plate_region.dfy` | `PlateRegion` | the candidate-selection loop, crop clamping, `process_image_file` |
| `parking_log.dfy` | `ParkingLog` | rows, fare, the SQL queries as functions, and the class `ParkingTable` whose methods change the table |

Modelling choices:

* The detector, the OCR model and the image are outside the model. Their outputs are parameters:
  * the list of detections;
  * the OCR text;
  * the image shape, `None` when the file cannot be read.
* Detector confidences and box coordinates are `real`. Confidences are only compared. Python's
  `int()` on a coordinate is truncation toward zero, written out in `PlateRegion.Truncate`.
* The clock is a parameter `now` in whole seconds. The fare is an exact `real`:
  `20 + (now - entry) / 60`.
* Where the code's tie-break in the vote is not fixed, the model leaves it open. The code uses
  `max(set(chars), key=chars.count)`, which depends on the iteration order of a Python `set`.
  `MajorityVote` may therefore return any most frequent character of a column.

Behaviour of the code that the model keeps as it is:

* `upload_entry` inserts a row without looking for an open row of the same plate.
  `DoubleEntryTwoOpenRows` proves that two entries leave two open rows.
* `upload_exit` accepts an exit time before the entry time. The fare is then below 20 (`Fare`).
* The fare is a single linear formula, `BASE_FARE + RATE_PER_MIN * minutes`.
* The normalised plate is only truncated, never padded or rejected. It may be empty or shorter
  than six characters, and it keeps lower-case letters.
* The vote's tie-break depends on set iteration order (see above).
* The exit's `UPDATE` matches on plate and entry time only, not on `exit_time IS NULL`.
  `CloseRows` therefore also rewrites a row of the same plate and entry time that was already
  closed, and it closes every open row sharing that entry time.
* A qualifying box less than 20 pixels wide or tall leaves an empty crop after the inset.
  OpenCV's colour conversion in `remove_white_border` rejects an empty image with an exception
  that `process_image_file` does not catch. The model returns `EmptyCropError` for it.

## Model

| member | source | states |
|---|---|---|
| `PlateText.CleanPlateString` | backend/model/LPD2.py:19-21 | the cleaned string holds only ASCII letters and digits and is no longer than the input |
| `PlateText.CleanConcat` | backend/model/LPD2.py:19-21 | cleaning works character by character: it distributes over concatenation, so the kept characters stay in their original order |
| `PlateText.CleanMembers` | backend/model/LPD2.py:19-21 | a character is in the cleaned string exactly when it is in the input and is an ASCII letter or digit |
| `PlateText.CleanIdentityIff` | backend/model/LPD2.py:19-21 | cleaning returns its input unchanged if and only if the input is already alphanumeric |
| `PlateText.CleanIdempotent` | backend/model/LPD2.py:19-21 | cleaning twice is cleaning once |
| `PlateText.DigitToAlpha` | backend/model/LPD2.py:122-123 | the confusion table (0→D, 1→I, 2→Z, 5→S, 6→G, 8→B, otherwise A) always yields an upper-case letter |
| `PlateText.EnforceSecondAlpha` | backend/model/LPD2.py:113-125 | same length as the cleaned input; every index but 1 unchanged; index 1 is a letter when the length is at least 2, corrected through the table when it was a digit; letters never rewritten, so case is kept |
| `PlateText.EnforceSecondAlphaIdempotent` | backend/model/LPD2.py:113-125 | applying the second-letter correction twice is applying it once |
| `PlateText.EnforcePlateLength` | backend/model/LPD2.py:127-131 | the result is the prefix of the cleaned input of length min(len, length), with no padding |
| `PlateText.EnforcePlateLengthIdempotent` | backend/model/LPD2.py:127-131 | truncating twice is truncating once |
| `PlateText.NormalizePlate` | backend/model/LPD2.py:105-107 | clean, correct index 1, truncate to 6: the result is alphanumeric, of length min(cleaned length, 6), with a letter at index 1 when it has two characters |
| `PlateText.NormalizeFixesNormalisedShape` | backend/model/LPD2.py:105-107 | normalisation leaves every alphanumeric string of length ≤ 6 with a letter at index 1 unchanged |
| `PlateText.NormalizeIdempotent` | backend/model/LPD2.py:105-107 | normalising twice is normalising once |
| `PlateVote.Column` | backend/model/LPD2.py:57 | the characters at position i of the predictions longer than i; at most one per prediction |
| `PlateVote.ColumnMembers` | backend/model/LPD2.py:57 | a character is in column i exactly when some prediction longer than i has it at position i |
| `PlateVote.MaxLen` | backend/model/LPD2.py:54 | the maximum prediction length: no prediction is longer and some prediction has exactly that length |
| `PlateVote.ColumnNonEmpty` | backend/model/LPD2.py:56-58 | below the maximum length every column is non-empty, so the `if chars` guard always holds |
| `PlateVote.MostFrequent` | backend/model/LPD2.py:59 | a character of the column whose count is at least every other's exists, so the vote can always choose |
| `PlateVote.MajorityVote` | backend/model/LPD2.py:51-60 | no predictions give ""; otherwise the result is as long as the longest prediction and each character is a most frequent character of its column |
| `PlateVote.CleanAll` | backend/model/LPD2.py:49 | each collected prediction is the cleaned OCR reading at the same index |
| `PlateVote.RecognizeEnsemble` | backend/model/LPD2.py:33-60 | the ensemble result is a vote over the cleaned readings, and it is alphanumeric |
| `PlateVote.VoteCharacterOrigin` | backend/model/LPD2.py:56-59 | every voted character stands at the same position in some prediction longer than that position |
| `PlateVote.VoteKeepsAlnum` | backend/model/LPD2.py:49-60 | voting over alphanumeric predictions gives an alphanumeric string |
| `PlateVote.StrictMajorityWins` | backend/model/LPD2.py:57-59 | a character held by more than half of a column is the voted character there, whatever the tie-break |
| `PlateVote.TwoCountsBound` | backend/model/LPD2.py:59 | two different characters together occur at most as often as the column is long |
| `PlateVote.UnanimousVote` | backend/model/LPD2.py:51-60 | when all readings are the same string, the vote returns that string |
| `PlateRegion.SelectBestPlate` | backend/model/LPD2.py:88-93 | nothing is chosen exactly when no detection is a `plate` of confidence ≥ 0.8; otherwise the chosen one qualifies, is at least as confident as every qualifying detection, and is strictly more confident than every earlier qualifying one |
| `PlateRegion.Truncate` | backend/model/LPD2.py:95 | `int()` on a float truncates toward zero |
| `PlateRegion.ClampWindow` | backend/model/LPD2.py:95-101 | all four window coordinates lie within 0..w or 0..h; a coordinate that lies inside the image after the 10-pixel inset is not moved |
| `PlateRegion.ClampedWindowMayBeInverted` | backend/model/LPD2.py:98-102 | the clamped window can have x1 > x2 (an empty slice), so no ordering is promised |
| `PlateRegion.BestPlateUnique` | backend/model/LPD2.py:88-93 | at most one detection is the one the candidate loop keeps |
| `PlateRegion.ProcessImageFile` | backend/model/LPD2.py:81-111 | an unreadable image gives None; otherwise None exactly when no detection qualifies; when the best detection's clamped window is empty the crop raises in the border trimmer; otherwise the window is non-empty and the result is the normalised OCR text |
| `PlateRegion.NarrowBoxScenario` | backend/model/LPD2.py:95-103 | a single qualifying 5-pixel box in a 100×100 image ends in the empty-crop exception, not a plate |
| `ParkingLog.Fare` | backend/app.py:97-98 | the fare is at least the base fare 20 exactly when the exit is not before the entry |
| `ParkingLog.FareGrowsPerMinute` | backend/app.py:20-21 | each further minute of stay adds one unit to the fare |
| `ParkingLog.LatestOpenEntry` | backend/app.py:90-91 | None exactly when the plate has no open row; otherwise the entry time of one of its open rows, and no open row of the plate has a later one |
| `ParkingLog.CloseRows` | backend/app.py:99 | rows matching both the plate and the entry time get exit time `now` and the fare; every other row is unchanged; the table length is kept |
| `ParkingLog.CloseRowsOpenCount` | backend/app.py:99 | closing never adds open rows to the plate, removes at least one when an open row with that entry time exists, and leaves other plates' open counts alone |
| `ParkingLog.CloseRowsKeepsOtherPlates` | backend/app.py:99 | the rows of every other plate are exactly as before |
| `ParkingLog.SearchCar` | backend/app.py:124-125 | every returned row has the searched plate, and there are no more rows than in the table |
| `ParkingLog.SearchCarMembers` | backend/app.py:124-125 | a row is returned exactly when it is in the table and has the searched plate |
| `ParkingLog.SearchCarConcat` | backend/app.py:124-125 | the search distributes over concatenation, so rows come back in insertion order (the order this model fixes) |
| `ParkingLog.EntryOpensOneMore` | backend/app.py:51-56 | an entry raises the plate's open-row count by one and leaves other plates' counts unchanged |
| `ParkingLog.DoubleEntryTwoOpenRows` | backend/app.py:51-56 | two entries of a plate with no open row leave two open rows: entry does not check for an open session |
| `ParkingLog.ExitReply.StatusCode` | backend/app.py:92-95 | status 404 exactly for the "No entry found" reply |
| `ParkingLog.ParkingTable.UploadEntry` | backend/app.py:48-59 | appends exactly one open row (plate, now, NULL, NULL) and changes no existing row; the plate's search gains that row and every other plate's search is unchanged |
| `ParkingLog.ParkingTable.UploadExit` | backend/app.py:84-103 | with no open row of the plate: 404 and the table unchanged; otherwise the latest open entry time t is chosen, the reply carries duration and fare 20 + (now - t)/60, and exactly the rows of that plate and entry time are closed; the plate loses at least one open row and other plates are untouched |

## Left out

- Model loading, the YOLOv5 detector and the TrOCR reader (LPD2.py lines 12-17, 28-30, 45-48, 86): foreign calls. Their outputs are parameters.
- The random brightness/contrast augmentation and `np.clip` (LPD2.py lines 40-43): floating-point image arithmetic. The `n` augmented readings are given as a sequence, so `n` is its length.
- `remove_white_border` (LPD2.py lines 62-69): OpenCV contour detection. The OCR text of the trimmed crop is a parameter. The empty crop it rejects is modelled as `EmptyCropError`. A non-empty crop is assumed to reach the OCR without an exception.
- The cut of the top third by `int(h*0.33)` in `recognize_plate_trocr` and `process_plate_crop` (LPD2.py lines 26, 76): a floating-point pixel operation on an image that is not modelled.
- `strip()` on the OCR text (LPD2.py lines 31, 49): every character it removes is also removed by cleaning, so it changes no result.
- The `__main__` block (LPD2.py lines 133-137): it calls `process_images`, which the file does not define. The console messages of `process_image_file` are left out too.
- The class-name lookup `results.names[int(cls)]`: each detection carries its class name directly.
- `backend/model/image_preprocessing.py` is not part of this model: it is image I/O and CLAHE filtering.
- PlateText.EnforcePlateLength: takes a natural `length`. Python's slice with a negative length counts from the end. That case is not modelled, because the only caller passes 6.
- PlateVote.MajorityVote: does not fix which of several equally frequent characters wins. The code's choice depends on Python's set iteration order.
- ParkingLog.Fare: exact rational arithmetic stands in for Python floats. The `round(..., 2)` of the JSON reply is not modelled.
- ParkingTable timestamps are whole seconds. Sub-second parts of `datetime.now()` and the database's timestamp rounding are not modelled.
- ParkingLog.SearchCar: returns rows in insertion order. The `SELECT` has no `ORDER BY`, so SQL does not fix the order of its rows. The model picks insertion order.
- Plate matching in `WHERE plate=%s` (app.py lines 90, 99, 124) is modelled as exact string equality in `IsOpenFor`, `CloseRows` and `SearchCar`. The column's collation is not part of the source. Under a case-insensitive collation, `abc123` would also match `ABC123`. `CloseRowsKeepsOtherPlates`, `CloseRowsOpenCount` and `UploadExit`'s "other plates untouched" hold only for exact equality.
- The MySQL connection, the SQL text, commits and connection errors: the table is a sequence of rows owned by `ParkingTable`. The row `id` column is not modelled.
- A missing `plate` form field (`request.form.get` returning `None`) is not modelled. The plate is always a string.
- `login` with its password hashing, the `render_template` page routes and `get_logs` with its date formatting and `TIMESTAMPDIFF`: web glue and foreign calls.
- Concurrency: each route call is modelled as one atomic step. The code's unguarded read-then-update in `upload_exit` can interleave with other requests. No at-most-one-open-session invariant is claimed, because the code does not enforce one.
- The test scripts under `backend/` are HTTP clients and are not part of this model.
