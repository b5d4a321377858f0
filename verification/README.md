# Face-attendance core in Dafny

A model of the face-matching core of a Flask attendance application for a steel
plant. Employees are registered under ids such as `JSWIRZ001`; the camera
frames captured at registration are saved in a photo folder per employee; the
frames' face embeddings are averaged into one stored reference vector; an
in-memory index maps every employee id to its reference vector; and a query
embedding is matched against the index by best similarity and a threshold.

Modules, one per concern:

- `Wrappers` — `Option`.
- `Gallery` (gallery.dfy) — embeddings, employee ids and the index, a dict kept
  as a sequence of pairs in insertion order (`Lookup` is `dict.get`, `Put` is
  `d[k] = v`).
- `Photos` (photos.dfy) — the PHOTOS directory: root entries that are folders
  (image files plus an optional stored `embedding.npy`) or plain files; glob
  patterns of the form `prefix*suffix`; saving a file into a folder.
- `Matcher` (matcher.dfy) — `match_embedding`, as a loop proved against a
  recursive specification.
- `IndexBuilder` (index_builder.dfy) — the specification of
  `load_all_embeddings`: what the dict holds and what the scan writes to disk.
- `Aggregation` (aggregation.dfy) — the extraction loop, the component-wise
  mean and the division by `norm + 1e-10`.
- `FaceEngine` (face_engine.dfy) — class `Engine` holding the photo store and
  the module-global `INDEX`, with `load_all_embeddings`, `build_index` and
  `generate_employee_embedding` as methods that change them.
- `EmployeeId` (employee_id.dfy) — `DEPT_CODES`, the `"GEN"` default and the
  `f"JSW{code}{count:03d}"` format.
- `Registration` (registration.dfy) — the employees table, id minting on
  registration, the UNIQUE constraint on `emp_id`, and `/api/get_next_id`.
- `Routes` (routes.dfy) — `/api/upload_frame`, `/api/finish_registration` and
  `/api/generate_embedding`.

The face extractor (`get_embedding`), the similarity (`cosine_sim`) and the
vector norm (`np.linalg.norm`) are parameters: `Extractor` maps an image's
bytes to an embedding or none, `Similarity` maps a reference and a query to a
real, `Norm` maps a vector to a non-negative real. Embeddings are sequences of
reals, so float32 rounding is not modelled.

Images are visited in directory listing order; when an employee's folder has
no stored embedding, a success under a later extension pattern (`*.jpeg`,
`*.png`) replaces the one found under `*.jpg`; a missing employee folder yields
"No images found".

## Model

| member | source | states |
|---|---|---|
| Gallery.Lookup | backend/services/face_engine.py:83 | the dict's key-to-value reading (the pairs `index.items()` yields), used to state what a dict holds: a value is found exactly for the keys of the dict |
| Gallery.Put | backend/services/face_engine.py:58 | assignment adds its key to the keys; the dict grows by one exactly when the key is new |
| Gallery.LookupAt | backend/services/face_engine.py:83 | in a dict with distinct keys the value found under an entry's key is that entry's value |
| Gallery.LookupPut | backend/services/face_engine.py:58 | after `d[k] = v`, `d.get(k)` is v and every other key reads as before |
| Gallery.PutPut | backend/services/face_engine.py:58-67 | two assignments to one key leave the dict as the second alone would |
| Gallery.PutKeepsKeysDistinct | backend/services/face_engine.py:58 | assignment keeps the keys distinct |
| Photos.Matches | backend/services/face_engine.py:63 | definition: a file name matches the one-star pattern `prefix*suffix` |
| Photos.MatchesIsGlob | backend/services/face_engine.py:63 | a name matches `prefix*suffix` exactly when it is the prefix, any middle part, then the suffix |
| Photos.Glob | backend/services/face_engine.py:63 | `folder.glob(p)`: the files whose names match, in listing order, never more than the folder holds |
| Photos.GlobHas | backend/services/face_engine.py:63 | a glob yields exactly the folder's files whose names match the pattern |
| Photos.GlobSame | backend/app.py:221 | two patterns that agree on every file of a folder glob the same list |
| Photos.FrameIsJpg | backend/app.py:221 | every `img_*.jpg` also matches `*.jpg` |
| Photos.FolderOf | backend/services/face_engine.py:98-99 | the files a glob in `PHOTOS/empid` sees: a non-empty result is the file list of a folder of that name |
| Photos.FolderOfAt | backend/services/face_engine.py:98-99 | with distinct names, the files seen in an entry's path are exactly its own files when it is a folder, none when it is a plain file |
| Photos.SetStored | backend/services/face_engine.py:116 | `np.save(folder / "embedding.npy", v)`: only that folder's stored vector changes, the listing keeps its length |
| Photos.SetStoredKeepsValid | backend/services/face_engine.py:116 | writing `embedding.npy` keeps the directory tree valid and the root names unchanged |
| Photos.WriteFile | backend/app.py:191 | `frame.save`: the written file is in the folder afterwards, which grows by at most one file |
| Photos.WriteFileSpec | backend/app.py:191 | saving a file leaves one file of that name, with the new content, and every other file as before |
| Photos.SaveInto | backend/app.py:187-191 | mkdir(exist_ok) then save; on success the listing grows by at most the new folder |
| Photos.SaveIntoFailsIff | backend/app.py:187-191 | with distinct names, mkdir-then-save fails exactly when `PHOTOS/empid` is a plain file |
| Photos.SaveIntoSpec | backend/app.py:187-191 | mkdir(exist_ok) then save: the folder then holds the frame under its name and keeps its other files; every other root entry is unchanged, every folder keeps its `embedding.npy`, the tree stays valid |
| Photos.SaveIntoEntries | backend/app.py:187-191 | only the entry named empid changes, by the write alone; when there is none, a new folder holding only the frame is added after the others |
| Photos.MakeDir | backend/app.py:187-188 | `mkdir(exist_ok=True)` alone: on success the listing grows by at most one entry |
| Photos.MakeDirFailsIff | backend/app.py:187-188 | with distinct names, mkdir fails exactly when `PHOTOS/empid` is a plain file |
| Photos.MakeDirSpec | backend/app.py:187-191 | mkdir fails exactly where mkdir-then-save fails; otherwise the tree stays valid, every entry is kept, and no glob and no stored vector changes |
| Photos.MakeDirAdds | backend/app.py:188 | mkdir adds at most the new empty folder, after the others, and only when no entry had its name |
| Photos.SaveIntoValid | backend/app.py:187-191 | saving a frame keeps names distinct in the root and in every folder |
| Photos.SaveIntoNames | backend/app.py:188 | saving adds at most the employee's folder to the root |
| Matcher.Scan | backend/services/face_engine.py:80-87 | the running `(best_emp, best_score)`: the score never drops below -1, and nobody is named exactly while it is -1 |
| Matcher.Match | backend/services/face_engine.py:79-92 | what `match_embedding` returns: the score is at least -1, and a named identity's score reaches the threshold and beats -1 |
| Matcher.MatchEmbedding | backend/services/face_engine.py:79-92 | the loop over `index.items()` with a strict `>` and the threshold test returns what the specification `Match` gives |
| Matcher.ScanIsMaximum | backend/services/face_engine.py:80-87 | the running best score is at least -1, at least every entry's score, and equal to -1 or some entry's score |
| Matcher.ScanPicksFirstBest | backend/services/face_engine.py:85-87 | the best entry is the first one reaching the maximum; nobody is named exactly when no score exceeds -1, and then the score is -1 |
| Matcher.MatchEmptyIndex | backend/services/face_engine.py:80-92 | an empty index gives `(None, -1)` |
| Matcher.MatchScoreIsBest | backend/services/face_engine.py:80-92 | the returned score is the maximum of -1 and all entries' scores, with or without an identity |
| Matcher.MatchIdentityIsFirstBest | backend/services/face_engine.py:83-90 | a returned identity is a key of the index, its score reaches the threshold, it is held by the first entry with the maximal score, and its score is that key's own score |
| Matcher.MatchAtDefaultThreshold | backend/services/face_engine.py:79-92 | at the default threshold 0.75 an identity is returned exactly when the best score reaches 0.75 |
| Matcher.MatchAcceptsIffThreshold | backend/services/face_engine.py:79-92 | an identity is returned exactly when the best score reaches the threshold (and some entry beats -1); otherwise None with the best score |
| IndexBuilder.FolderVector | backend/services/face_engine.py:57-68 | the vector a folder contributes; a stored `embedding.npy` always wins |
| IndexBuilder.LastPatternHit | backend/services/face_engine.py:62-68 | definition: the result of the pattern loop, the first success under the last pattern that has one (its meaning is stated by `LastPatternHitFound` and `LastPatternHitNone`) |
| IndexBuilder.Saved | backend/services/face_engine.py:57-67 | a folder as the scan leaves it: same name, same files, an existing `embedding.npy` never overwritten |
| IndexBuilder.Persisted | backend/services/face_engine.py:50-68 | the store after a scan: one entry per entry before |
| IndexBuilder.BuildSpec | backend/services/face_engine.py:46-71 | the dict `load_all_embeddings` returns: at most one entry per root entry |
| IndexBuilder.FirstSuccessSpec | backend/services/face_engine.py:63-68 | the first success is an accepted image preceded only by rejected ones; none means every image is rejected |
| IndexBuilder.LastPatternHitFound | backend/services/face_engine.py:62-68 | a folder's computed vector is the first success under a pattern after which no later pattern has a success |
| IndexBuilder.LastPatternHitNone | backend/services/face_engine.py:62-68 | the pattern loop finds nothing exactly when no pattern has a success |
| IndexBuilder.FolderVectorFound | backend/services/face_engine.py:61-68 | a folder without `embedding.npy` gets a vector exactly when some `*.jpg`, `*.jpeg` or `*.png` image is accepted, and that vector is the extractor's result for one such image of the folder |
| IndexBuilder.LaterPatternOverrides | backend/services/face_engine.py:62-68 | with an accepted `a.jpg` and an accepted `b.png` the folder's vector is `b.png`'s, because `break` leaves only the inner loop |
| IndexBuilder.BuildSpecKeys | backend/services/face_engine.py:50-52 | only folders enter the dict, and its keys are distinct |
| IndexBuilder.BuildSpecLookup | backend/services/face_engine.py:50-68 | a folder's name maps to its stored vector if it has one, else to the computed one or nothing; a plain file maps to nothing |
| IndexBuilder.BuildSpecAbsent | backend/services/face_engine.py:50-54 | a name that is no root entry has no dict entry |
| IndexBuilder.StoredEmbeddingUsed | backend/services/face_engine.py:57-59 | a stored vector is used whatever the extractor does: no extraction happens for that folder |
| IndexBuilder.PersistedKeepsValid | backend/services/face_engine.py:66 | saving computed vectors keeps the directory tree valid |
| IndexBuilder.PersistedPrefix | backend/services/face_engine.py:50-68 | the scan's writes to the first n entries depend only on those entries |
| IndexBuilder.RebuildIsStable | backend/services/face_engine.py:57-67 | rebuilding from the store a scan has written gives the same dict |
| IndexBuilder.IndexedEmbeddingsAreStored | backend/services/face_engine.py:57-67 | after a scan every indexed vector is saved in its folder, so any later rebuild keeps it |
| Aggregation.Successes | backend/services/face_engine.py:104-108 | the vectors of the accepted images, in order, never more than the images |
| Aggregation.CollectVectors | backend/services/face_engine.py:104-108 | the loop keeps exactly the extractor's successes, in order |
| Aggregation.SuccessesEmpty | backend/services/face_engine.py:110-111 | no vector survives exactly when every image is rejected |
| Aggregation.SuccessesFromImages | backend/services/face_engine.py:104-108 | every kept vector is the extractor's result for one of the images, so all have the extractor's length |
| Aggregation.SuccessesAppend | backend/services/face_engine.py:104-108 | the kept vectors of two runs of images, one after the other, are those of the first run followed by those of the second, so each accepted image contributes its vector once, in order |
| Aggregation.SuccessesKeepAll | backend/services/face_engine.py:104-108 | every accepted image's vector is kept, one kept vector per accepted image (equal vectors counted separately) |
| Aggregation.NormalizedIsPositiveScale | backend/services/face_engine.py:114 | dividing by norm + 1e-10 only rescales by a positive factor: the vector keeps its direction and every component its sign |
| Aggregation.Mean | backend/services/face_engine.py:113 | `np.mean(vectors, axis=0)`: a vector of the common length |
| Aggregation.ColumnMean | backend/services/face_engine.py:113 | the mean of one component over the accepted vectors: their column sum times one over their count |
| Aggregation.NormalizedComponent | backend/services/face_engine.py:114 | one component of the normalised vector: the component times one over norm + 1e-10 |
| Aggregation.MeanIsComponentwise | backend/services/face_engine.py:113 | component k of the mean is the sum of the k-th components over the count |
| Aggregation.MeanWithinBounds | backend/services/face_engine.py:113 | each component of the mean lies between the least and greatest value of that component |
| Aggregation.MeanOfCopies | backend/services/face_engine.py:113 | the mean of copies of one vector is that vector |
| Aggregation.MeanOutcome | backend/services/face_engine.py:99-113 | the shared aggregation: no images, then no accepted image, fail; a computed mean has 128 components |
| Aggregation.MeanOutcomeFailures | backend/services/face_engine.py:99-111 | failure comes in order: no matching file gives NoImages, matching files all rejected give NoFaces, exactly |
| Aggregation.MeanOutcomeVector | backend/services/face_engine.py:104-113 | on success the kept vectors are non-empty and of the extractor's length, and each mean component is the column sum over the count |
| FaceEngine.Engine.LoadAllEmbeddings | backend/services/face_engine.py:46-71 | the nested loops return the dict `BuildSpec` describes and leave each folder as `Persisted` describes |
| FaceEngine.Engine.LoadEntry | backend/services/face_engine.py:51-68 | one folder step: skip a plain file, take a stored vector, else run the pattern loop; only that entry of the store changes |
| FaceEngine.Engine.ScanPattern | backend/services/face_engine.py:63-68 | the image loop saves and puts the first success and breaks; without a success nothing changes |
| FaceEngine.Engine.BuildIndex | backend/services/face_engine.py:122-126 | INDEX becomes, and the call returns, the freshly loaded dict |
| FaceEngine.Engine.GenerateEmployeeEmbedding | backend/services/face_engine.py:97-117 | the `(success, message)` pair follows the outcome; only a computed vector is stored, a failure writes nothing |
| FaceEngine.EmployeeOutcome | backend/services/face_engine.py:97-117 | the outcome of `generate_employee_embedding`: a computed vector has 128 components |
| FaceEngine.Report | backend/services/face_engine.py:101-117 | the `(success, message)` pair: success exactly when a vector was computed |
| FaceEngine.EmployeeOutcomeFailures | backend/services/face_engine.py:99-111 | "No images found" exactly when the folder has no `*.jpg`; "Could not compute embeddings" exactly when it has some and all are rejected |
| FaceEngine.EmployeeOutcomeVector | backend/services/face_engine.py:104-116 | on success the accepted `*.jpg` vectors are non-empty and 128 long, component k of their mean is the sum of their k-th components over their count, and component k of the stored vector is that mean component divided by the mean's norm + 1e-10 |
| FaceEngine.EmployeeOutcomeIsPositiveScale | backend/services/face_engine.py:113-116 | the stored vector is the unnormalised mean times a positive factor: it points the same way |
| FaceEngine.RegisteredEmployeeIsIndexed | backend/services/face_engine.py:116-126 | after the vector is stored, a rebuild maps the employee to it, whatever the extractor does, and leaves every other key as it was |
| EmployeeId.DeptCode | backend/app.py:117 | `DEPT_CODES.get(dept, "GEN")`; a missing department field takes "GEN" |
| EmployeeId.Decimal | backend/app.py:126 | `str(n)`: a non-empty run of decimal digits |
| EmployeeId.ZeroPad3 | backend/app.py:126 | `{n:03d}`: at least three decimal digits |
| EmployeeId.EmpId | backend/app.py:126 | `f"JSW{code}{count:03d}"`: starts with "JSW" and is at least six characters longer than the code |
| EmployeeId.MintId | backend/app.py:117-126 | the id minted for a department with a given row count: the code's id for one more than that count, starting with "JSW" |
| EmployeeId.DecimalValue | backend/app.py:126 | `str(n)` denotes n |
| EmployeeId.ZeroPad3Spec | backend/app.py:126 | `{n:03d}` is digits denoting n, at least three long, never truncated |
| EmployeeId.DecimalLength | backend/app.py:126 | `str(n)` has three digits or fewer exactly when n < 1000 |
| EmployeeId.EmpIdParts | backend/app.py:126 | an id is "JSW", then the code, then digits denoting the count |
| EmployeeId.EmpIdInjectiveInCount | backend/app.py:126 | one code, different counts: different ids |
| EmployeeId.EmpIdInjectiveInCode | backend/app.py:126 | two codes of capital letters: different codes give different ids, whatever the counts |
| EmployeeId.CodesAreWords | backend/app.py:117 | every department code, "GEN" included, is a non-empty run of capital letters |
| EmployeeId.ListedNames | backend/app.py:10-37 | every key of the table is one of the 26 departments listed |
| EmployeeId.CodeDeptsInvertsTable | backend/app.py:10-37 | the inverse table maps each code back to its department |
| EmployeeId.ListedCodesDistinct | backend/app.py:10-37 | the table's codes are pairwise distinct and none is "GEN" |
| EmployeeId.SameDepartmentDistinctCounts | backend/app.py:117-126 | within one department distinct counts mint distinct ids |
| EmployeeId.ListedDepartmentsNeverCollide | backend/app.py:10-37 | two different listed departments never mint the same id |
| EmployeeId.UnlistedDepartmentsShareCode | backend/app.py:117-126 | two unlisted departments and a missing one all mint "JSWGEN001" first |
| EmployeeId.UnlistedExamples | backend/app.py:117 | departments missing from the table take "GEN" |
| EmployeeId.MintIdFirstOfDepartment | backend/app.py:117-126 | the first Iron Zone employee is "JSWIRZ001" |
| EmployeeId.MintIdFourDigits | backend/app.py:126 | a count of 1234 keeps all four digits: "JSWVD1234" |
| Registration.CountInDepartment | backend/app.py:123-124 | the per-department count never exceeds the table size |
| Registration.Register | backend/app.py:117-134 | an inserted id was not taken and the table gains exactly that row; a rejected id is already taken |
| Registration.RegisterCorrected | backend/app.py:117-134 | the same guarantees for registration numbered by department code |
| Registration.EmpIdInjective | backend/app.py:126 | an id minted from a capital-letter code determines both the code and the count |
| Registration.NumberedAt | backend/app.py:117-134 | each row of a numbered column holds the id minted from its code and the earlier rows of that code |
| Registration.NextIdFresh | backend/app.py:126-134 | with an injective format, no row of a numbered column holds the next id of any code |
| Registration.NextIdTakenIff | backend/app.py:126-134 | an id minted from a count at or below a code's row count is free exactly at that row count, taken below it |
| Registration.CorrectedIdFresh | backend/app.py:126 | in a well-numbered table no row holds the next id of any code |
| Registration.RegisterCorrectedInserts | backend/app.py:117-134 | registration numbered by code always inserts and keeps the table well numbered |
| Registration.WellNumberedHoldsAll | backend/app.py:124-126 | a well-numbered table holds every id of a code up to that code's row count |
| Registration.CountInDepartmentAtMost | backend/app.py:123-124 | the rows of one department name are at most the rows of its code |
| Registration.ListedCodeIff | backend/app.py:117 | a department carries a listed department's code exactly when it is that department |
| Registration.ListedCountsAgree | backend/app.py:117-124 | for a listed department counting by name and by code agree |
| Registration.AsWrittenInsertsIff | backend/app.py:117-134 | on a well-numbered table, registration as written inserts exactly when the department's name accounts for all rows of its code; otherwise its id is taken |
| Registration.AsWrittenIsCorrected | backend/app.py:117-134 | when the name accounts for all rows of its code, registration as written mints the corrected id, inserts it and keeps the table well numbered |
| Registration.RegisterKeepsWellNumbered | backend/app.py:117-134 | registration as written never breaks the numbering: an inserted row keeps the table well numbered |
| Registration.Replay | backend/app.py:112-136 | definition: the employees table after a run of `/register` requests on an empty table (a rejected insert leaves it unchanged) |
| Registration.ReplayWellNumbered | backend/app.py:112-136 | every table the application builds this way is well numbered and holds pairwise distinct ids |
| Registration.ListedDepartmentInserts | backend/app.py:117-134 | a listed department is always inserted, as written |
| Registration.UnlistedDepartmentsCollide | backend/app.py:117-134 | "Security" then "Canteen" on an empty table: the second mints "JSWGEN001" again and is rejected |
| Registration.UnlistedDepartmentsCorrected | backend/app.py:117-134 | numbered by code the second gets "JSWGEN002" |
| Registration.GetNextId | backend/app.py:142-163 | a missing or empty department is refused before any query; a returned id is minted from the queried count |
| Registration.GetNextIdPreviewsRegister | backend/app.py:145-161 | for a named department the preview is the id registration then tries to insert |
| Routes.FrameName | backend/app.py:190 | every frame name matches both `img_*.jpg` and `*.jpg` |
| Routes.FrameNameInjective | backend/app.py:190 | distinct index fields name distinct files; a missing index names the same file as the index "None" |
| Routes.NestedIndex | backend/app.py:190-191 | definition: an index containing '/' names a file inside a subfolder that does not exist, so the save raises |
| Routes.UploadFrame | backend/app.py:178-193 | missing empid or frame: 400 and nothing saved; an index containing '/': the folder is created, then the save fails; else the frame is saved as `img_{index}.jpg` in the employee's folder, or mkdir fails on a plain file |
| Routes.SavedFrameIsAggregated | backend/app.py:187-191 | a saved frame is seen by both aggregations' globs; one the extractor accepts makes both succeed |
| Routes.FinishRegistration | backend/app.py:196-208 | missing empid: 400 before any aggregation or rebuild; else the reply is the aggregation's, the index is rebuilt, and a computed vector is what the index then holds for the employee |
| Routes.GenerateEmbedding | backend/app.py:210-241 | missing empid, "No images found", "No valid faces", or the unnormalised mean of the frames stored |
| Routes.RouteOutcome | backend/app.py:221-236 | the route's aggregation over `img_*.jpg` only, not normalised; a computed vector has 128 components |
| Routes.RouteReply | backend/app.py:222-241 | the route's reply: success exactly when a mean was computed |
| Routes.RouteFailures | backend/app.py:221-233 | "No images found" exactly when no `img_*.jpg`; "No valid faces" exactly when there are frames but none accepted |
| Routes.RouteIsUnnormalisedEngine | backend/app.py:221-239 | when every `*.jpg` is a frame, route and engine fail alike and the engine's vector is the route's divided by its norm + 1e-10 |

## Left out

- Flask plumbing: sessions, the hard-coded login, templates, redirects and the
  pages `/`, `/login`, `/logout`, `/register/capture/<empid>`, `/evac_mode`,
  `/attendance`; replies are datatypes rather than JSON.
- SQLite: the employees table is a sequence of rows; the connection, commit,
  schema creation and the attendance table are not modelled. `GetNextId` takes
  the count query's result as a parameter (none when it raises); the outer
  "server error" reply for other failures is not modelled.
- `register`'s `mkdir` of the new employee's folder (backend/app.py:128-129) is
  not modelled; an empty folder contributes nothing to the index.
- The face extractor, `load_model` and their printed errors: the extractor is a
  parameter, and an exception is its none result.
- `cosine_sim` and `np.linalg.norm`: floating point and square roots; both are
  parameters (the norm is only assumed non-negative).
- EmployeeOutcomeVector: states the stored vector in terms of the abstract
  norm, not of the Euclidean norm of the mean.
- Aggregation assumes the extractor always yields 128 components (a Facenet
  model does); `np.mean` over vectors of mixed lengths is not modelled.
- `sorted()` in `/api/generate_embedding`: the route's images are taken in
  listing order; over reals the mean does not depend on the order.
- File-system paths: employee ids are plain folder names; ids containing
  separators or `..`, and a missing PHOTOS directory, are not modelled. Of the
  frame index only '/' is modelled (the save fails); characters the operating
  system refuses in a file name, such as NUL, are not.
- `np.save`/`np.load`: the stored vector is a field of the folder.
- The global `INDEX` at backend/app.py:61-64: `Engine.index` is the engine
  module's `INDEX`; the name imported into the application module keeps the
  startup dict after a rebuild, an aliasing effect not modelled.
- Concurrency between requests.
- backend/static/evac.js (camera UI without logic).

## Findings

| source | as written | input that shows it | evidently intended | confidence | as-written member | corrected member |
|---|---|---|---|---|---|---|
| backend/app.py:117-126 | the count is taken per department name, but every unlisted (or missing) department shares the code "GEN" | register "Security" then "Canteen" on an empty table: both mint "JSWGEN001", and the UNIQUE `emp_id` column (backend/models/db.py:13) rejects the second | ids unique across the "GEN" departments, e.g. by counting the rows that share the code | not executed | Registration.UnlistedDepartmentsCollide | Registration.RegisterCorrectedInserts |
