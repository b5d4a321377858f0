/**
 The registration handlers of the web application, reduced to their decisions:
 the guards on the form fields, where a captured frame is saved, what
 `/api/finish_registration` runs, and the unnormalised aggregation of
 `/api/generate_embedding`.
 */
module Routes {
  import opened Wrappers
  import opened Gallery
  import opened Photos
  import opened Aggregation
  import opened IndexBuilder
  import opened FaceEngine

  /** `not value` is false only for a present, non-empty form field. */
  predicate Given(s: Option<string>)
  {
    s.Some? && s.value != ""
  }

  /** An uploaded file field. */
  datatype Upload = Upload(filename: string, content: Blob)

  /** An uploaded file is falsy when the browser sent it without a file name. */
  predicate FrameGiven(frame: Option<Upload>)
  {
    frame.Some? && frame.value.filename != ""
  }

  /** `f"img_{index}.jpg"`; a missing index field is formatted as "None". */
  function FrameName(index: Option<string>): (name: string)
    ensures Matches(name, FramePattern) && Matches(name, JpgPattern)
  {
    var i := if index.Some? then index.value else "None";
    var name := "img_" + i + ".jpg";
    assert name[..4] == "img_" && name[|name| - 4..] == ".jpg";
    name
  }

  /** Distinct index fields name distinct frame files; a missing index shares its name with the index "None". */
  lemma FrameNameInjective(i1: string, i2: string)
    ensures FrameName(Some(i1)) == FrameName(Some(i2)) <==> i1 == i2
    ensures FrameName(None) == FrameName(Some("None"))
  {
    if FrameName(Some(i1)) == FrameName(Some(i2)) {
      var n := FrameName(Some(i1));
      assert i1 == n[4..|n| - 4];
      assert i2 == n[4..|n| - 4];
    }
  }

  /**
   An index containing '/' turns "img_{index}.jpg" into a path through a
   subdirectory "img_..." that does not exist, so saving the frame raises.
   */
  predicate NestedIndex(index: Option<string>)
  {
    index.Some? && '/' in index.value
  }

  /** The `/api/upload_frame` replies. */
  datatype UploadReply =
    | UploadMissing                          // 400 "missing"
    | UploadSaved(folder: string, file: string)
    | UploadFailed                           // an exception, answered with 500: mkdir or the save raised

  /**
   `/api/upload_frame`: with both the employee id and the frame given, the
   employee's folder is created if missing and the frame is saved in it as
   "img_{index}.jpg"; an index containing '/' leaves only the folder created.
   */
  method UploadFrame(e: Engine, empid: Option<string>, index: Option<string>, frame: Option<Upload>)
    returns (reply: UploadReply)
    requires e.Valid()
    modifies e`photos
    ensures e.Valid()
    ensures !(Given(empid) && FrameGiven(frame)) ==> reply == UploadMissing && e.photos == old(e.photos)
    ensures Given(empid) && FrameGiven(frame) && NestedIndex(index) ==>
      && reply == UploadFailed
      && e.photos == match MakeDir(old(e.photos), empid.value)
        case None => old(e.photos)
        case Some(es) => es
    ensures Given(empid) && FrameGiven(frame) && !NestedIndex(index) ==>
      match SaveInto(old(e.photos), empid.value, File(FrameName(index), frame.value.content))
      case None => reply == UploadFailed && e.photos == old(e.photos)
      case Some(es) => reply == UploadSaved(empid.value, FrameName(index)) && e.photos == es
  {
    if !Given(empid) || !FrameGiven(frame) {
      return UploadMissing;
    }
    var name := FrameName(index);
    if NestedIndex(index) {
      var made := MakeDir(e.photos, empid.value);
      if made.Some? {
        MakeDirSpec(e.photos, empid.value, File(name, frame.value.content));
        e.photos := made.value;
      }
      return UploadFailed;
    }
    var saved := SaveInto(e.photos, empid.value, File(name, frame.value.content));
    if saved.None? {
      return UploadFailed;
    }
    SaveIntoSpec(e.photos, empid.value, File(name, frame.value.content));
    e.photos := saved.value;
    reply := UploadSaved(empid.value, name);
  }

  /**
   A saved frame is among the images both aggregations glob, and a frame the
   extractor accepts makes both of them succeed.
   */
  lemma SavedFrameIsAggregated(es: seq<Entry>, empid: Identity, index: Option<string>, content: Blob, extract: Extractor)
    requires StoreValid(es) && FixedDim(extract)
    requires SaveInto(es, empid, File(FrameName(index), content)).Some?
    ensures var files := FolderOf(SaveInto(es, empid, File(FrameName(index), content)).value, empid);
      && File(FrameName(index), content) in Glob(files, JpgPattern)
      && File(FrameName(index), content) in Glob(files, FramePattern)
      && (extract(content).Some? ==>
            MeanOutcome(Glob(files, JpgPattern), extract).Computed? &&
            MeanOutcome(Glob(files, FramePattern), extract).Computed?)
  {
    var f := File(FrameName(index), content);
    var files := FolderOf(SaveInto(es, empid, f).value, empid);
    SaveIntoSpec(es, empid, f);
    GlobHas(files, JpgPattern, f);
    GlobHas(files, FramePattern, f);
    MeanOutcomeFailures(files, JpgPattern, extract);
    MeanOutcomeFailures(files, FramePattern, extract);
  }

  /** The `/api/finish_registration` replies. */
  datatype FinishReply = FinishMissing | Finished(success: bool, message: string)

  /** The store once `generate_employee_embedding` has run: the computed vector is saved, a failure saves nothing. */
  function AfterGenerate(es: seq<Entry>, empid: Identity, extract: Extractor, norm: Norm): seq<Entry>
    requires FixedDim(extract) && NormNonNegative(norm)
  {
    match EmployeeOutcome(es, empid, extract, norm)
    case Computed(v) => SetStored(es, empid, v)
    case _ => es
  }

  /**
   `/api/finish_registration`: without an employee id nothing runs; otherwise
   the employee's embedding is generated and the index rebuilt, so that an
   employee whose embedding was computed is found in the index under that vector.
   */
  method FinishRegistration(e: Engine, empid: Option<string>, extract: Extractor, norm: Norm)
    returns (reply: FinishReply)
    requires e.Valid() && FixedDim(extract) && NormNonNegative(norm)
    modifies e
    ensures e.Valid()
    ensures !Given(empid) ==> reply == FinishMissing && e.photos == old(e.photos) && e.index == old(e.index)
    ensures Given(empid) ==>
      var out := EmployeeOutcome(old(e.photos), empid.value, extract, norm);
      var stored := AfterGenerate(old(e.photos), empid.value, extract, norm);
      && reply == Finished(Report(out).0, Report(out).1)
      && e.index == BuildSpec(stored, extract)
      && e.photos == Persisted(stored, extract)
    ensures Given(empid) && EmployeeOutcome(old(e.photos), empid.value, extract, norm).Computed? ==>
      Lookup(e.index, empid.value) == Some(EmployeeOutcome(old(e.photos), empid.value, extract, norm).vector)
  {
    if !Given(empid) {
      return FinishMissing;
    }
    ghost var es := e.photos;
    var ok, msg := e.GenerateEmployeeEmbedding(empid.value, extract, norm);
    var _ := e.BuildIndex(extract);
    reply := Finished(ok, msg);
    if EmployeeOutcome(es, empid.value, extract, norm).Computed? {
      RegisteredEmployeeIsIndexed(es, empid.value, extract, norm, extract, empid.value);
    }
  }

  /** The `/api/generate_embedding` replies. */
  datatype GenerateReply = GenerateMissing | GenerateFailed(error: string) | GenerateSaved

  /** The route's aggregation: the mean over the captured frames "img_*.jpg" only, not normalised. */
  function RouteOutcome(es: seq<Entry>, empid: Identity, extract: Extractor): (r: Outcome)
    requires FixedDim(extract)
    ensures r.Computed? ==> |r.vector| == FacenetDim
  {
    MeanOutcome(Glob(FolderOf(es, empid), FramePattern), extract)
  }

  /** The reply for the route's outcome: only a computed mean is a success. */
  function RouteReply(out: Outcome): (r: GenerateReply)
    ensures r == GenerateSaved <==> out.Computed?
  {
    match out
    case NoImages => GenerateFailed("No images found")
    case NoFaces => GenerateFailed("No valid faces")
    case Computed(_) => GenerateSaved
  }

  /**
   `/api/generate_embedding`: without an employee id nothing runs; otherwise
   the mean of the frames' embeddings is stored as it is, and either failure
   stores nothing.
   */
  method GenerateEmbedding(e: Engine, empid: Option<string>, extract: Extractor) returns (reply: GenerateReply)
    requires e.Valid() && FixedDim(extract)
    modifies e`photos
    ensures e.Valid()
    ensures !Given(empid) ==> reply == GenerateMissing && e.photos == old(e.photos)
    ensures Given(empid) ==>
      && reply == RouteReply(RouteOutcome(old(e.photos), empid.value, extract))
      && e.photos == match RouteOutcome(old(e.photos), empid.value, extract)
        case Computed(v) => SetStored(old(e.photos), empid.value, v)
        case _ => old(e.photos)
  {
    if !Given(empid) {
      return GenerateMissing;
    }
    var images := Glob(FolderOf(e.photos, empid.value), FramePattern);
    if |images| == 0 {
      return GenerateFailed("No images found");
    }
    var embList := CollectVectors(images, extract);
    if |embList| == 0 {
      return GenerateFailed("No valid faces");
    }
    SuccessesFromImages(images, extract);
    var finalEmb := Mean(embList, FacenetDim);
    SetStoredKeepsValid(e.photos, empid.value, finalEmb);
    e.photos := SetStored(e.photos, empid.value, finalEmb);
    reply := GenerateSaved;
  }

  /**
   The route fails with "No images found" exactly when the folder has no frame,
   and with "No valid faces" exactly when it has frames but the extractor
   accepts none.
   */
  lemma RouteFailures(es: seq<Entry>, empid: Identity, extract: Extractor)
    requires FixedDim(extract)
    ensures RouteReply(RouteOutcome(es, empid, extract)) == GenerateFailed("No images found") <==>
      forall f :: f in FolderOf(es, empid) ==> !Matches(f.name, FramePattern)
    ensures RouteReply(RouteOutcome(es, empid, extract)) == GenerateFailed("No valid faces") <==>
      && (exists f :: f in FolderOf(es, empid) && Matches(f.name, FramePattern))
      && (forall f :: f in FolderOf(es, empid) && Matches(f.name, FramePattern) ==> extract(f.content).None?)
  {
    MeanOutcomeFailures(FolderOf(es, empid), FramePattern, extract);
  }

  /**
   When every "*.jpg" in the folder is a captured frame, the route and the
   engine average the same images: they fail alike, and the engine stores the
   route's vector scaled by its inverse norm.
   */
  lemma RouteIsUnnormalisedEngine(es: seq<Entry>, empid: Identity, extract: Extractor, norm: Norm)
    requires FixedDim(extract) && NormNonNegative(norm)
    requires forall f :: f in FolderOf(es, empid) && Matches(f.name, JpgPattern) ==> Matches(f.name, FramePattern)
    ensures RouteOutcome(es, empid, extract).Computed? <==> EmployeeOutcome(es, empid, extract, norm).Computed?
    ensures RouteOutcome(es, empid, extract).NoImages? <==> EmployeeOutcome(es, empid, extract, norm).NoImages?
    ensures RouteOutcome(es, empid, extract).Computed? ==>
      var v := RouteOutcome(es, empid, extract).vector;
      EmployeeOutcome(es, empid, extract, norm).vector == Normalized(v, norm(v))
  {
    var files := FolderOf(es, empid);
    forall f | f in files
      ensures Matches(f.name, JpgPattern) <==> Matches(f.name, FramePattern)
    {
      if Matches(f.name, FramePattern) {
        FrameIsJpg(f.name);
      }
    }
    GlobSame(files, JpgPattern, FramePattern);
  }
}
