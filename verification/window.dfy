/** The part of the main window that is not presentation: accepting a drop of
    files. Only the Word documents of a drop become the job's input files; a
    drop without any leaves the window as it was. */
module Window {
  import opened Collections
  import opened PathNames

  /** The paths of a drop that name Word documents, in drop order. */
  function WordDocuments(paths: seq<string>): (r: seq<string>)
    ensures |r| <= |paths|
    ensures forall p :: p in r <==> p in paths && IsWordDocument(p)
  {
    Filter(paths, IsWordDocument)
  }

  /** A drop is filtered one path at a time: the documents of two drops
      together are those of the first followed by those of the second, and
      each document is kept as often as it was dropped. */
  lemma WordDocumentsOfDrops(a: seq<string>, b: seq<string>)
    ensures WordDocuments(a + b) == WordDocuments(a) + WordDocuments(b)
    ensures forall p :: multiset(WordDocuments(a))[p] == if IsWordDocument(p) then multiset(a)[p] else 0
  {
    FilterAppend(a, b, IsWordDocument);
    FilterCounts(a, IsWordDocument);
  }

  /** A drop of Word documents only is taken as it is. */
  lemma AllDocumentsKept(paths: seq<string>)
    requires forall k :: 0 <= k < |paths| ==> IsWordDocument(paths[k])
    ensures WordDocuments(paths) == paths
  {
    FilterAll(paths, IsWordDocument);
  }

  class MainWindow {
    /** The documents the next job will compress. */
    var inputFiles: seq<string>
    /** The directory the compressed copies go to; empty until chosen. */
    var outputDir: string
    /** The "output to the original file's directory" check box. */
    var sameDir: bool

    /** A new window: no input files, no output directory, the check box
        ticked. */
    constructor ()
      ensures inputFiles == [] && outputDir == "" && sameDir
    {
      inputFiles := [];
      outputDir := "";
      sameDir := true;
    }

    /** Accepts the Word documents among the dropped paths. Without any, a
        warning is shown and nothing changes; otherwise they replace the input
        files and, with the check box ticked, the output directory becomes the
        directory of the first one. */
    method HandleDroppedFiles(paths: seq<string>) returns (warned: bool)
      modifies this`inputFiles, this`outputDir
      ensures warned <==> forall k :: 0 <= k < |paths| ==> !IsWordDocument(paths[k])
      ensures warned ==> inputFiles == old(inputFiles) && outputDir == old(outputDir)
      ensures !warned ==> inputFiles == WordDocuments(paths) && |inputFiles| > 0
      ensures !warned ==> outputDir == if sameDir then Dirname(inputFiles[0]) else old(outputDir)
    {
      var valid := WordDocuments(paths);
      if valid == [] {
        forall k | 0 <= k < |paths|
          ensures !IsWordDocument(paths[k])
        {
          assert paths[k] in paths;
        }
        return true;
      }
      warned := false;
      assert valid[0] in valid;
      var k :| 0 <= k < |paths| && paths[k] == valid[0];
      assert IsWordDocument(paths[k]);
      inputFiles := valid;
      if sameDir {
        outputDir := Dirname(valid[0]);
      }
    }
  }
}
