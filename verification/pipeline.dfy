/** The compression job: a worker object holding the job's paths, quality and
    cooperative cancel flag, which validates the input, extracts it into a
    scratch tree, re-encodes the media images in place, writes a new archive
    and reports one terminal result. */
module Pipeline {
  import opened Wrappers
  import opened Collections
  import opened PathNames
  import opened Progress
  import opened Package
  import opened Recompress

  /** The exception that ends a run; `run` turns each into a failure result. */
  datatype Error =
    | NotFound            // the input path does not exist
    | UnsupportedFormat   // the input path has neither document suffix
    | BadArchive          // the input cannot be read as a zip archive
    | InvalidStructure    // there is no word/media after extraction
    | MediaNotADirectory  // word/media is a file, so listing it raises
    | NoOutputDirectory   // the output path has no directory part, so creating it raises
    | EmptyInput          // the input has size 0 when the ratio is computed

  /** The `finished_signal` payload: success with the sizes that go into the
      message, or failure with its cause. */
  datatype Report = Succeeded(originalSize: nat, compressedSize: nat) | Failed(error: Error)

  /** Reading and writing zip archives; the format itself is not part of this
      model. `read` is `None` when the bytes are not a readable archive. */
  datatype ZipCodec = ZipCodec(read: Bytes -> Option<Archive>, write: Archive -> Bytes)

  /** The outcome of the checks made before any image is touched. */
  datatype Prepared = Ready(tree: Tree) | Rejected(error: Error)

  /** Validation and extraction: the input must exist, carry a document suffix,
      be a readable archive, and contain word/media once extracted; the first
      check that fails names the error. */
  function Prepare(disk: map<string, Bytes>, inputPath: string, zip: ZipCodec): (r: Prepared)
    ensures r.Ready? ==> inputPath in disk && IsWordDocument(inputPath)
    ensures r.Ready? ==> zip.read(disk[inputPath]).Some? && r.tree == Unpack(zip.read(disk[inputPath]).value)
    ensures r.Ready? ==> Exists(r.tree, MediaDir)
    ensures inputPath !in disk <==> r == Rejected(NotFound)
    ensures inputPath in disk && !IsWordDocument(inputPath) <==> r == Rejected(UnsupportedFormat)
    ensures (inputPath in disk && IsWordDocument(inputPath) && zip.read(disk[inputPath]).None?)
            <==> r == Rejected(BadArchive)
    ensures (&& inputPath in disk && IsWordDocument(inputPath) && zip.read(disk[inputPath]).Some?
             && !Exists(Unpack(zip.read(disk[inputPath]).value), MediaDir))
            <==> r == Rejected(InvalidStructure)
    ensures r.Ready? <==> && inputPath in disk && IsWordDocument(inputPath) && zip.read(disk[inputPath]).Some?
                          && Exists(Unpack(zip.read(disk[inputPath]).value), MediaDir)
  {
    if inputPath !in disk then Rejected(NotFound)
    else if !IsWordDocument(inputPath) then Rejected(UnsupportedFormat)
    else match zip.read(disk[inputPath])
      case None => Rejected(BadArchive)
      case Some(a) =>
        var t := Unpack(a);
        if !Exists(t, MediaDir) then Rejected(InvalidStructure) else Ready(t)
  }

  /** What a run writes, read back: the archive made from the scratch files
      after the first `k` candidates were processed extracts to the same
      paths as the input, without directory entries; every entry that is not
      a candidate image keeps its bytes, the processed candidates hold their
      re-encoded bytes (or their own on failure), and the candidates the cut
      left out hold their original bytes. */
  lemma OutputOfRun(input: Archive, listing: seq<string>, k: nat, save: Saver, members: Archive)
    requires IsEnumeration(listing, Children(Unpack(input), MediaDir))
    requires k <= |Candidates(listing)|
    requires IsPackOf(members, Reencode(Unpack(input).files, Candidates(listing), k, save).files)
    ensures var t, out, cands := Unpack(input), Unpack(members), Candidates(listing);
            && out.dirs == {}
            && out.files.Keys == t.files.Keys
            && (forall p :: p in t.files && (forall c :: c in cands ==> MediaPath(c) != p) ==>
                  out.files[p] == t.files[p])
            && (forall j :: 0 <= j < |cands| && MediaPath(cands[j]) in t.files ==>
                  out.files[MediaPath(cands[j])]
                  == if j < k then Outcome(t.files, cands[j], save) else t.files[MediaPath(cands[j])])
  {
    var t, cands := Unpack(input), Candidates(listing);
    var pass := Reencode(t.files, cands, k, save);
    RepackRoundTrip(members, pass.files);
    CandidatesOfListing(t, listing);
    CancelIsPrefixCut(t.files, cands, k, save);
    NonCandidatesUntouched(t.files, cands, k, save);
  }

  /** The host file system: absolute path to file contents. */
  class FileSystem {
    var files: map<string, Bytes>

    constructor (files: map<string, Bytes>)
      ensures this.files == files
    {
      this.files := files;
    }
  }

  /** The temporary directory the package is extracted into. It belongs to one
      run and is dropped when the run ends. */
  class ScratchTree {
    var files: map<Path, Bytes>
    var dirs: set<Path>

    /** Extraction into a fresh directory. */
    constructor (t: Tree)
      ensures files == t.files && dirs == t.dirs
    {
      files := t.files;
      dirs := t.dirs;
    }

    function View(): Tree
      reads this
    {
      Tree(files, dirs)
    }
  }

  class CompressionThread {
    const inputPath: string
    const outputPath: string
    const quality: int
    /** Set by the requester; read by the worker before each image. */
    var canceled: bool
    /** The `progress_updated` signals emitted so far. */
    var events: seq<ProgressEvent>
    /** The `finished_signal` signals emitted so far. */
    var finished: seq<Report>

    constructor (inputPath: string, outputPath: string, quality: int)
      ensures this.inputPath == inputPath && this.outputPath == outputPath && this.quality == quality
      ensures !canceled && events == [] && finished == []
    {
      this.inputPath := inputPath;
      this.outputPath := outputPath;
      this.quality := quality;
      canceled := false;
      events := [];
      finished := [];
    }

    /** The requester's side of cooperative cancellation: the flag is only ever
        set, never cleared. */
    method Cancel()
      modifies this`canceled
      ensures canceled
    {
      canceled := true;
    }

    /** The image pass. The media directory is listed in an order of the
        system's choosing (reported as `listing`); its candidate images are
        then processed in that order. Listing a path that is not a directory
        raises before anything is processed. */
    method ProcessImages(scratch: ScratchTree, encode: Encoder, cancelAt: nat)
      returns (listed: bool, ghost listing: seq<string>)
      modifies this`canceled, this`events, scratch`files
      ensures listed <==> IsDirectory(old(scratch.View()), MediaDir)
      ensures !listed ==> canceled == old(canceled) && events == old(events) && scratch.files == old(scratch.files)
      ensures listed ==> IsEnumeration(listing, Children(old(scratch.View()), MediaDir))
      ensures listed ==>
                var cands := Candidates(listing);
                var pass := Reencode(old(scratch.files), cands, CutPoint(old(canceled), cancelAt, |cands|), SaveImage(quality, encode));
                && scratch.files == pass.files
                && events == old(events) + pass.events
                && canceled == (old(canceled) || cancelAt < |cands|)
    {
      listing := [];
      if !IsDirectory(scratch.View(), MediaDir) {
        return false, listing;
      }
      listed := true;
      var names := Enumerate(Children(scratch.View(), MediaDir));
      listing := names;
      ProcessCandidates(scratch, Candidates(names), SaveImage(quality, encode), cancelAt);
    }

    /** The loop over the candidate images: the cancel flag is checked before
        each one, and the pass stops at the first check that sees it set. The
        requester's write to the flag becomes visible at check number
        `cancelAt` and at every later one. Each candidate is re-encoded into
        its own file and announced with its progress; a failure skips it
        silently. */
    method ProcessCandidates(scratch: ScratchTree, cands: seq<string>, save: Saver, cancelAt: nat)
      modifies this`canceled, this`events, scratch`files
      ensures var pass := Reencode(old(scratch.files), cands, CutPoint(old(canceled), cancelAt, |cands|), save);
              && scratch.files == pass.files
              && events == old(events) + pass.events
              && canceled == (old(canceled) || cancelAt < |cands|)
    {
      var total := |cands|;
      ghost var files0, events0, canceled0 := scratch.files, events, canceled;
      ghost var pass := Reencode(files0, cands, 0, save);
      var i := 0;
      while i < total
        invariant i <= total && canceled == canceled0
        invariant if canceled0 then i == 0 else i <= cancelAt
        invariant pass == Reencode(files0, cands, i, save)
        invariant scratch.files == pass.files && events == events0 + pass.events
      {
        if i >= cancelAt {
          canceled := true;
        }
        if canceled {
          break;
        }
        ReencodeStep(files0, cands, i, save);
        ReencodeImage(scratch, cands, i, save);
        pass := Reencode(files0, cands, i + 1, save);
        i := i + 1;
      }
    }

    /** The `try` block for the candidate at index `i`: on success its file
        is overwritten and its progress is announced; on failure nothing
        changes. */
    method ReencodeImage(scratch: ScratchTree, cands: seq<string>, i: nat, save: Saver)
      requires i < |cands|
      modifies this`events, scratch`files
      ensures match Attempt(old(scratch.files), cands[i], save)
              case None => scratch.files == old(scratch.files) && events == old(events)
              case Some(b) =>
                && scratch.files == old(scratch.files)[MediaPath(cands[i]) := b]
                && events == old(events) + [ProgressEvent(Percent(i, |cands|), cands[i])]
    {
      var name := cands[i];
      var path := MediaPath(name);
      if path in scratch.files {
        var saved := save(name, scratch.files[path]);
        if saved.Some? {
          scratch.files := scratch.files[path := saved.value];
          events := events + [ProgressEvent(Percent(i, |cands|), name)];
        }
      }
    }

    /** Writes every regular file of the scratch tree, in walk order, as one
        deflated member named by its relative path into a new archive at the
        output path, replacing any file already there. Creating the output's
        directory fails when the output path has no directory part. */
    method Repackage(scratch: ScratchTree, fs: FileSystem, zip: ZipCodec) returns (made: bool, members: Archive)
      modifies fs`files
      ensures made <==> Dirname(outputPath) != []
      ensures !made ==> fs.files == old(fs.files)
      ensures made ==> IsPackOf(members, scratch.files)
      ensures made ==> fs.files == old(fs.files)[outputPath := zip.write(members)]
    {
      members := [];
      if Dirname(outputPath) == [] {
        return false, members;
      }
      made := true;
      if outputPath in fs.files {
        fs.files := fs.files - {outputPath};
      }
      var paths := Enumerate(scratch.files.Keys);
      for k := 0 to |paths|
        invariant |members| == k
        invariant forall i :: 0 <= i < k ==> members[i] == Member(paths[i], scratch.files[paths[i]], Deflated)
      {
        members := members + [Member(paths[k], scratch.files[paths[k]], Deflated)];
      }
      forall p | p in scratch.files
        ensures exists i :: 0 <= i < |members| && members[i].name == p
      {
        var i :| 0 <= i < |paths| && paths[i] == p;
        assert members[i].name == p;
      }
      fs.files := fs.files[outputPath := zip.write(members)];
    }

    /** The whole job. Exactly one report is emitted. A job rejected before
        extraction or for its structure touches no image, emits no progress and
        writes nothing. Otherwise the images are processed up to the cut the
        cancel flag makes, the scratch files are repackaged into the output,
        and the sizes of the input and output, read after writing, are
        reported; a canceled job still repackages and succeeds. */
    method Run(fs: FileSystem, zip: ZipCodec, encode: Encoder, cancelAt: nat)
      returns (report: Report, ghost listing: seq<string>, ghost members: Archive)
      modifies this`canceled, this`events, this`finished, fs`files
      ensures finished == old(finished) + [report]
      ensures Prepare(old(fs.files), inputPath, zip).Rejected? ==>
                && report == Failed(Prepare(old(fs.files), inputPath, zip).error)
                && fs.files == old(fs.files) && events == old(events) && canceled == old(canceled)
      ensures Prepare(old(fs.files), inputPath, zip).Ready? && !IsDirectory(Prepare(old(fs.files), inputPath, zip).tree, MediaDir) ==>
                && report == Failed(MediaNotADirectory)
                && fs.files == old(fs.files) && events == old(events) && canceled == old(canceled)
      ensures Prepare(old(fs.files), inputPath, zip).Ready? && IsDirectory(Prepare(old(fs.files), inputPath, zip).tree, MediaDir) ==>
                var t := Prepare(old(fs.files), inputPath, zip).tree;
                var cands := Candidates(listing);
                var pass := Reencode(t.files, cands, CutPoint(old(canceled), cancelAt, |cands|), SaveImage(quality, encode));
                && IsEnumeration(listing, Children(t, MediaDir))
                && events == old(events) + pass.events
                && canceled == (old(canceled) || cancelAt < |cands|)
                && (Dirname(outputPath) == [] ==> report == Failed(NoOutputDirectory) && fs.files == old(fs.files))
                && (Dirname(outputPath) != [] ==>
                      && IsPackOf(members, pass.files)
                      && fs.files == old(fs.files)[outputPath := zip.write(members)]
                      && inputPath in fs.files
                      && report == if |fs.files[inputPath]| == 0 then Failed(EmptyInput)
                                   else Succeeded(|fs.files[inputPath]|, |fs.files[outputPath]|))
    {
      listing, members := [], [];
      var prepared := Prepare(fs.files, inputPath, zip);
      if prepared.Rejected? {
        report := Failed(prepared.error);
        finished := finished + [report];
        return;
      }
      var scratch := new ScratchTree(prepared.tree);
      // the second existence test of word/media always passes
      assert Exists(scratch.View(), MediaDir);
      var listed;
      listed, listing := ProcessImages(scratch, encode, cancelAt);
      if !listed {
        report := Failed(MediaNotADirectory);
        finished := finished + [report];
        return;
      }
      var made;
      made, members := Repackage(scratch, fs, zip);
      if !made {
        report := Failed(NoOutputDirectory);
        finished := finished + [report];
        return;
      }
      // the check that the output exists always passes
      assert outputPath in fs.files;
      var originalSize := |fs.files[inputPath]|;
      var compressedSize := |fs.files[outputPath]|;
      if originalSize == 0 {
        report := Failed(EmptyInput);
      } else {
        report := Succeeded(originalSize, compressedSize);
      }
      finished := finished + [report];
    }
  }
}
