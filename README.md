# Presensi face-recognition attendance: a verified model

The service enrolls employees and logs their attendance by face.
`admin_register` stores a photo under a file name derived from the employee's
name and inserts a row `(name, photo, embedding)` into the `users` table.
`presensi_kamera` (a camera frame sent as a base64 data URL) and
`presensi_upload` (an uploaded photo) extract the query face's embedding. They
then scan every users row in order, keeping a running best similarity that
starts at -1 and is replaced only by a strictly greater score. If the best
score is below 0.40 the face is "not recognised"; otherwise one row is
inserted into the `absensi` table for the best user.

The model has four modules:

- `PhotoName` (`photo_name.dfy`): the file name rule of `admin_register`.
- `DataUrl` (`data_url.dfy`): Python's `split(",")` and the payload of a data URL.
- `Matching` (`matching.dfy`): the scan, the tie rule and the threshold decision, over rows `(id, name, score)`.
- `Presensi` (`presensi.dfy`): the two tables as sequences in a class `Database`, and the three handlers as methods on it.

`Wrappers` (`wrappers.dfy`) holds `Option` and `Result`.

Library calls are parameters of the handlers:

- `represent` stands for `DeepFace.represent`. On the camera path it also covers base64 and image decoding. Its result is a `Result`: an exception becomes `Failure` with the exception's text.
- `similarity` stands for `cosine_similarity`. It gives a `real` score for a pair of embeddings.
- `now` stands for SQL `NOW()`.
- `extracted`, the argument of `Database.Register`, stands for the outcome of `DeepFace.represent(path)[0]["embedding"]` (app.py:46): the embedding, or the exception's text.

Two edge cases of the code:

- An empty users table leaves `best_user` as `None`, and the face is not recognised (`Matching.NoWinnerRejects`).
- On the upload path, a photo without a face does not give "no face". `DeepFace.represent` raises there, or `[0]` raises on an empty list, and the handler answers with the generic `Error:` message. Only the camera path answers `Wajah tidak terdeteksi!`.

## Model

| member | source | states |
|---|---|---|
| `PhotoName.ReplaceSpaces` | app.py:40 | The stem has the name's length; each space becomes `_`; every other character stays in place. |
| `PhotoName.PhotoFilename` | app.py:40 | The file name has length `|name| + 4`, ends in `.jpg`, and its stem has no space. Non-space characters keep their positions; spaces become `_`. |
| `PhotoName.FilenameCollision` | app.py:40-42 | Two names get the same stored file name (the `photo` column) if and only if they have the same length and differ only by swapping spaces and underscores. When they do, enrolling one overwrites the other's photo. |
| `PhotoName.SpaceAndUnderscoreCollide` | app.py:40 | `"Budi Santoso"` and `"Budi_Santoso"` are stored under the same file name. |
| `DataUrl.Split` | app.py:91 | `split(",")` always gives at least one field, and no field contains a comma. |
| `DataUrl.JoinSplit` | app.py:91 | Joining the fields of `split(",")` back with commas gives the input. |
| `DataUrl.SplitJoin` | app.py:91 | Splitting the join of one or more comma-free fields gives those fields back. |
| `DataUrl.SecondFieldIffComma` | app.py:91 | `split(",")` has a second field exactly when the input contains a comma. |
| `DataUrl.Payload` | app.py:91 | There is no payload (the `[1]` raises IndexError) exactly when the input has no comma. A payload never contains a comma. |
| `DataUrl.PayloadAfterFirstComma` | app.py:91 | The payload is the text right after the first comma, up to the next comma or the end of the input. |
| `DataUrl.JpegDataUrl` | app.py:90-91 | For `data:image/jpeg;base64,<b64>`, the payload is the base64 text. |
| `Matching.BestScore` | app.py:115-126 | The best score is at least -1 and at least every row's score. It is either -1 or some row's score, so it is the maximum of -1 and all scores. |
| `Matching.Winner` | app.py:115-126 | `best_user` is `None` exactly when no row scores above -1. Otherwise it is a row of the table whose score is the best score. |
| `Matching.FindBest` | app.py:115-126 | The loop leaves `best_score` equal to `BestScore(rows)` and `best_user` equal to `Winner(rows)`. The upload path's copy is at app.py:168-179. |
| `Matching.ScanStep` | app.py:124-126 | A row with a strictly greater score takes over both score and user. A row with an equal or lower score changes neither. |
| `Matching.Decide` | app.py:128-133 | The handler accepts exactly when some row scores at least 0.40. An accepted user is a row of the table, the reported score is its score, and no row scores higher. |
| `Matching.AcceptsFirstBest` | app.py:124-126 | Ties go to the earlier row: every row before the accepted one scores strictly less. |
| `Matching.AcceptsWinner` | app.py:128-139 | The handler accepts exactly when the scan kept a user (`best_user` is not `None`) whose score reaches 0.40. It then records and reports that user with that user's own score. |
| `Matching.NoWinnerRejects` | app.py:168-182 | `best_user` is `None` exactly when `best_score` stays -1. Then the face is not recognised. An empty table is such a case. |
| `Matching.ThresholdIsInclusive` | app.py:181-182 | A row that scores exactly 0.40, with every other row below it, is accepted. |
| `Matching.UniqueBestWins` | app.py:168-185 | A row that strictly beats every other row and reaches 0.40 is the one accepted, with its own score. |
| `Presensi.Response.Status` | app.py:136-140 | The `status` field is true exactly for a recorded attendance, and exactly when the message starts with `Presensi Berhasil: `. Every other answer (app.py:105, 129, 143, 153, 182, 195) has status false. |
| `Presensi.Response.Message` | app.py:136-143 | The messages are the source's strings. `Presensi Berhasil: ` starts the message of a recorded attendance and of no other answer, and the user's name follows it. An exception's message is `Error: ` followed by the exception's text. The other messages are the fixed texts of app.py:105, 129, 153, 182. |
| `Presensi.ScoreRows` | app.py:118-122 | The scan sees one scored row per users row, in table order. Each has that row's id and name and the score `similarity(query, stored embedding)`. The upload path's copy is at app.py:171-175. |
| `Presensi.Answer` | app.py:128-140 | An accept answers with status true, the accepted user's name and the best score. A reject answers "Wajah tidak dikenali!" with status false. |
| `Presensi.Logged` | app.py:132-133 | An accept inserts exactly one absensi row, carrying the accepted user's id and the current time. A reject inserts none. |
| `Presensi.Database.EventUser` | app.py:132-133 | Every attendance event names exactly one users row: ids are unique and the id an event carries is in the table. |
| `Presensi.AcceptedUserIsStored` | app.py:128-134 | An accepted user's id and name belong to one users row, and the reported score is that row's similarity to the query. |
| `Presensi.Database.Register` | app.py:35-57 | A failed extraction answers with the error and changes no table. A successful one appends exactly one row `(next id, name, PhotoFilename(name), embedding)` without looking at existing rows. `absensi` is unchanged, and ids stay increasing. |
| `Presensi.Database.RecordMatch` | app.py:109-139 | `users` is unchanged. On accept, exactly one event carrying the winner's id is appended, and the answer reports the winner's name and the best score. On reject, `absensi` is unchanged and the answer is "not recognised". The `best_user` dereference is proved never to meet `None`. |
| `Presensi.Database.CheckInCamera` | app.py:86-143 | A missing `image_data` form field raises werkzeug's BadRequestKeyError and answers `Error: 400 Bad Request: ...` with that exception's text, recording nothing. A data URL without a comma answers with the IndexError and records nothing. An extraction failure answers with its text. No face answers "Wajah tidak terdeteksi!". Otherwise the first face is matched as in `RecordMatch`. |
| `Presensi.Database.CheckInUpload` | app.py:149-195 | No file answers "Foto tidak ditemukan!". An extraction failure, or an empty face list, answers with the error and records nothing. Otherwise the first face is matched as in `RecordMatch`. |
| `Presensi.RegisterSameNameTwice` | app.py:55-57 | Registering one name twice gives two rows with that name and the same photo file. They have different ids. |

## Left out

- `cosine_similarity` (app.py:79-80) is not modelled. It is floating-point arithmetic through numpy, and a zero-norm vector gives NaN. Each row's similarity is a given `real`, so rows whose score is NaN (which never win under `>`) are not represented.
- `similarity` is total over embeddings of any length. In the code, `np.dot` raises ValueError when a stored embedding and the query differ in length; the handler then answers `Error:` and records nothing. That path is not modelled.
- The scan visits the users rows in insertion (id) order. `SELECT * FROM users` (app.py:112, 165) has no ORDER BY, so SQL does not promise this order. Between rows with exactly equal scores, the order decides which user is recorded.
- Scores are exact reals. The comparison with 0.40 ignores that the double nearest 0.40 is slightly above 0.4, and `float(best_score)` is not modelled.
- `DeepFace.represent`, `base64.b64decode`, `cv2.imdecode` and `pickle` are foreign library calls. They are a `represent` parameter, or, for stored embeddings, values already decoded. A stored embedding that fails to unpickle, which would raise and answer `Error:`, is not modelled.
- The users table is assumed to have an AUTO_INCREMENT `id`. The schema is not part of this model. `nextId` starts at 1 and increases by one per inserted row.
- Flask routing, templates, `jsonify`, and the HTML text of `admin_register`'s answers are I/O plumbing and are not modelled. Form fields are parameters: a missing `image_data` field is `None` (the BadRequestKeyError path), and a missing `foto` file is `None` (`PhotoMissing`). Responses are datatypes. Their `status` and `message` fields are `Response.Status` and `Response.Message`.
- Saving the photo to disk (app.py:41-42, 155-157) is not modelled. So is the fact that it happens even when extraction then fails, and the overwrite of an existing photo file. `PhotoName.FilenameCollision` states when two names get the same stored file name.
- The path handling of `os.path.join` (app.py:41) is not modelled. Different file names can still reach the same file (`./Budi.jpg` and `Budi.jpg`). A name starting with `/`, or one whose `..` path parts climb above the folder (e.g. `../Budi`), writes outside the upload folder. Other names with `/` write into a subfolder, or fail if it does not exist.
- MySQL connections, commits and failures are not modelled, and neither is concurrency between requests. Each handler is one atomic method on `Database`.
- The model-conversion scripts, `build_all_models.py` and `config.py` are build-time scripting around the TensorFlow Lite converter and are not part of this model.
