/** `main` (sourcesetmaker.py:63-175) after argument parsing: check the
    source folder, find the images, create the directories, convert every
    image and write the manifest. */
module Batch {
  import opened Wrappers
  import opened Listing
  import opened Buckets
  import opened Processing
  import opened Manifest

  /** What the source path turns out to be on disk. */
  datatype Folder = Missing | NotADirectory | Directory(entries: seq<string>)

  /** The three ways the run stops with exit status 1 (lines 96-109). */
  datatype RunError = FolderMissing | FolderNotADirectory | NoImageFiles

  /** The outcome of a completed run. */
  datatype Report = Report(
    files: seq<string>,       // image_files, in processing order
    successful: nat,          // successful_conversions
    attempts: seq<Attempt>,   // every convert_to_webp call, in order
    manifest: seq<string>)    // the writes to sourceset_info.txt

  /** The bucket plan `main` builds from the command line. */
  function PlanFor(savepath: string, widths: seq<int>, quality: int): (plan: Plan)
    ensures plan.Valid()
  {
    Plan(Dedup(widths), WidthDirMap(savepath, widths), OriginalDir(savepath), quality)
  }

  /** A run of the script. `formatOrder` is the iteration order of the set
      `SUPPORTED_FORMATS`, `created` the directories asked for, in order.
      The widths and quality are what argparse accepts: at least one int
      (`nargs='+'`) and a quality in 1..100. */
  method Run(folder: Folder, folderName: string, formatOrder: seq<string>, savepath: string,
             widths: seq<int>, quality: int, env: Oracles)
    returns (r: Result<Report, RunError>, created: seq<string>)
    requires |widths| >= 1
    requires 1 <= quality <= 100
    requires IsEnumeration(formatOrder)
    ensures r == Err(FolderMissing) <==> folder.Missing?
    ensures r == Err(FolderNotADirectory) <==> folder.NotADirectory?
    ensures r == Err(NoImageFiles) <==> folder.Directory? && ImageNames(folder.entries) == []
    ensures r.Err? ==> created == []
    ensures r.Ok? ==>
              var rep := r.value;
              var plan := PlanFor(savepath, widths, quality);
              && folder.Directory?
              && multiset(rep.files) == multiset(ImageNames(folder.entries))
              && rep.files != []
              && created == [savepath] + WidthDirs(savepath, widths) + [OriginalDir(savepath)]
              && rep.successful == SuccessCount(rep.files, plan, env)
              && rep.successful <= |rep.files|
              && rep.attempts == AllAttempts(rep.files, plan, env)
              && rep.manifest == ManifestWrites(folderName, savepath, widths, quality, |rep.files|, rep.successful)
  {
    created := [];
    if folder.Missing? {
      return Err(FolderMissing), created;
    }
    if folder.NotADirectory? {
      return Err(FolderNotADirectory), created;
    }
    var files := GetImageFiles(folder.entries, formatOrder);
    if files == [] {
      assert multiset(ImageNames(folder.entries)) == multiset{};
      return Err(NoImageFiles), created;
    }
    assert ImageNames(folder.entries) != [] by {
      assert files[0] in multiset(ImageNames(folder.entries));
    }
    var keys, dirs, made := PlanBuckets(savepath, widths);
    created := [savepath] + made + [OriginalDir(savepath)];
    var plan := Plan(keys, dirs, OriginalDir(savepath), quality);
    assert plan == PlanFor(savepath, widths, quality);
    var successful, attempts := ProcessAll(files, plan, env);
    var manifest := WriteManifest(folderName, savepath, widths, quality, |files|, successful);
    r := Ok(Report(files, successful, attempts, manifest));
  }
}
