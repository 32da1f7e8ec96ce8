/** The image pass of the pipeline as a specification on values: which media
    entries are candidates, how each is re-encoded, and what the scratch files
    and the progress events are after the first `n` candidates. */
module Recompress {
  import opened Wrappers
  import opened Collections
  import opened PathNames
  import opened Progress
  import opened Package

  /** The keyword arguments given to `img.save`. */
  datatype SaveOptions = SaveOptions(quality: Option<int>, optimize: bool)

  /** Opening an image and saving it back under the given extension and
      options; `None` when opening, decoding or encoding raises. The imaging
      library itself is not part of this model. */
  type Encoder = (string, SaveOptions, Bytes) -> Option<Bytes>

  /** The body of the `try` block for one image: the re-encoded bytes of the
      image with the given file name, or `None` when it raises. */
  type Saver = (string, Bytes) -> Option<Bytes>

  /** One `progress_updated` signal: a percentage and the name of the image. */
  datatype ProgressEvent = ProgressEvent(percent: int, image: string)

  /** The scratch files and the events emitted so far. */
  datatype Pass = Pass(files: map<Path, Bytes>, events: seq<ProgressEvent>)

  /** The extension dispatch: JPEG with the job's quality and optimisation,
      PNG with optimisation only, anything else with a plain save. */
  function SaveOptionsFor(ext: string, quality: int): (r: SaveOptions)
    ensures r.optimize <==> ext == ".jpg" || ext == ".jpeg" || ext == ".png"
    ensures r.quality.Some? <==> ext == ".jpg" || ext == ".jpeg"
    ensures r.quality.Some? ==> r.quality.value == quality
  {
    if ext == ".jpg" || ext == ".jpeg" then SaveOptions(Some(quality), true)
    else if ext == ".png" then SaveOptions(None, true)
    else SaveOptions(None, false)
  }

  /** `os.path.splitext(name)[1].lower()`, which is the extension of the
      lowered name. */
  function ExtOf(name: string): (r: string)
    ensures r == Extension(Lower(name))
  {
    ExtensionOfLower(name);
    Lower(Extension(name))
  }

  /** The `try` block of the pipeline: the extension of the file name, lowered,
      selects the save options, and the image is saved back in its own
      format. */
  function SaveImage(quality: int, encode: Encoder): (r: Saver)
    ensures forall a, b, data :: ExtOf(a) == ExtOf(b) ==> r(a, data) == r(b, data)
  {
    (name: string, b: Bytes) => encode(ExtOf(name), SaveOptionsFor(ExtOf(name), quality), b)
  }

  /** The candidate images among the names listed in the media directory, in
      listing order. */
  function Candidates(listing: seq<string>): (c: seq<string>)
    ensures forall n :: n in c <==> n in listing && IsCandidateImage(n)
    ensures Distinct(listing) ==> Distinct(c)
  {
    FilterDistinct(listing, IsCandidateImage);
    Filter(listing, IsCandidateImage)
  }

  /** Re-encoding one candidate: `None` when its file cannot be opened (it is
      missing or is a directory) or the encoder fails. */
  function Attempt(files: map<Path, Bytes>, name: string, save: Saver): (r: Option<Bytes>)
    ensures MediaPath(name) !in files ==> r.None?
  {
    var path := MediaPath(name);
    if path in files then save(name, files[path]) else None
  }

  /** The bytes a candidate's file holds once it has been attempted. */
  function Outcome(files: map<Path, Bytes>, name: string, save: Saver): (r: Bytes)
    requires MediaPath(name) in files
    ensures Attempt(files, name, save) == Some(r) || (Attempt(files, name, save).None? && r == files[MediaPath(name)])
  {
    match Attempt(files, name, save)
    case Some(b) => b
    case None => files[MediaPath(name)]
  }

  /** The state after processing the first `n` of the candidates `cands`: each
      success overwrites the candidate's own file and emits the event for its
      index; a failure changes nothing and emits nothing. The set of paths never
      changes, and there is at most one event per candidate. */
  function Reencode(files: map<Path, Bytes>, cands: seq<string>, n: nat, save: Saver): (r: Pass)
    requires n <= |cands|
    ensures r.files.Keys == files.Keys
    ensures |r.events| <= n
    decreases n
  {
    if n == 0 then Pass(files, [])
    else
      var prev := Reencode(files, cands, n - 1, save);
      match Attempt(prev.files, cands[n - 1], save)
      case None => prev
      case Some(b) =>
        Pass(prev.files[MediaPath(cands[n - 1]) := b],
             prev.events + [ProgressEvent(Percent(n - 1, |cands|), cands[n - 1])])
  }

  /** One more candidate: a success overwrites its file and appends its event,
      a failure leaves the pass as it was. */
  lemma ReencodeStep(files: map<Path, Bytes>, cands: seq<string>, n: nat, save: Saver)
    requires n < |cands|
    ensures var prev := Reencode(files, cands, n, save);
            var attempt := Attempt(prev.files, cands[n], save);
            Reencode(files, cands, n + 1, save)
            == if attempt.None? then prev
               else Pass(prev.files[MediaPath(cands[n]) := attempt.value],
                         prev.events + [ProgressEvent(Percent(n, |cands|), cands[n])])
  {
  }

  /** How many candidates are processed: none when the flag is already set,
      otherwise up to the check at which the requester's write becomes
      visible. */
  function CutPoint(canceled: bool, cancelAt: nat, total: nat): (r: nat)
    ensures r <= total
    ensures canceled ==> r == 0
    ensures !canceled ==> (r == total <==> cancelAt >= total)
    ensures r < total ==> canceled || r == cancelAt
  {
    if canceled then 0 else if cancelAt < total then cancelAt else total
  }

  /** A path that is not the file of one of the first `n` candidates keeps its
      bytes. */
  lemma {:induction false} ReencodeUntouched(files: map<Path, Bytes>, cands: seq<string>, n: nat,
                                              save: Saver, p: Path)
    requires n <= |cands| && p in files
    requires forall j :: 0 <= j < n ==> MediaPath(cands[j]) != p
    ensures Reencode(files, cands, n, save).files[p] == files[p]
  {
    if n > 0 {
      ReencodeUntouched(files, cands, n - 1, save, p);
    }
  }

  /** Every path that is not the file of some candidate keeps its bytes, however
      many candidates are processed. */
  lemma NonCandidatesUntouched(files: map<Path, Bytes>, cands: seq<string>, n: nat, save: Saver)
    requires n <= |cands|
    ensures forall p :: p in files && (forall c :: c in cands ==> MediaPath(c) != p) ==>
              Reencode(files, cands, n, save).files[p] == files[p]
  {
  }

  /** With distinct candidate names, a candidate not yet reached is attempted on
      its original bytes. */
  lemma AttemptUnaffected(files: map<Path, Bytes>, cands: seq<string>, n: nat, save: Saver, j: nat)
    requires Distinct(cands) && n <= j < |cands|
    ensures Attempt(Reencode(files, cands, n, save).files, cands[j], save)
            == Attempt(files, cands[j], save)
  {
    var path := MediaPath(cands[j]);
    if path in files {
      forall k | 0 <= k < n
        ensures MediaPath(cands[k]) != path
      {
        MediaPathInjective(cands[k], cands[j]);
      }
      ReencodeUntouched(files, cands, n, save, path);
    }
  }

  /** With distinct candidate names, the files of the other candidates are
      not the file of candidate `j`. */
  lemma OthersElsewhere(cands: seq<string>, j: nat)
    requires Distinct(cands) && j < |cands|
    ensures forall k :: 0 <= k < |cands| && k != j ==> MediaPath(cands[k]) != MediaPath(cands[j])
  {
    forall k | 0 <= k < |cands| && k != j
      ensures MediaPath(cands[k]) != MediaPath(cands[j])
    {
      MediaPathInjective(cands[k], cands[j]);
    }
  }

  /** With distinct candidate names, the `n`-th candidate is attempted on its
      original bytes and keeps the outcome. */
  lemma ReencodeLast(files: map<Path, Bytes>, cands: seq<string>, n: nat, save: Saver)
    requires Distinct(cands) && 0 < n <= |cands|
    requires MediaPath(cands[n - 1]) in files
    ensures Reencode(files, cands, n, save).files[MediaPath(cands[n - 1])]
            == Outcome(files, cands[n - 1], save)
  {
    OthersElsewhere(cands, n - 1);
    ReencodeUntouched(files, cands, n - 1, save, MediaPath(cands[n - 1]));
  }

  /** With distinct candidate names, each of the first `n` candidates ends up
      with its re-encoded bytes, or its original bytes when re-encoding
      failed. */
  lemma {:induction false} ReencodeCandidate(files: map<Path, Bytes>, cands: seq<string>, n: nat,
                                              save: Saver, j: nat)
    requires Distinct(cands) && j < n <= |cands|
    requires MediaPath(cands[j]) in files
    ensures Reencode(files, cands, n, save).files[MediaPath(cands[j])]
            == Outcome(files, cands[j], save)
  {
    if j == n - 1 {
      ReencodeLast(files, cands, n, save);
    } else {
      ReencodeCandidate(files, cands, n - 1, save, j);
      MediaPathInjective(cands[n - 1], cands[j]);
    }
  }

  /** Cancellation is a prefix cut: after processing the first `k` candidates,
      those have their re-encoded bytes, every later candidate still has its
      original bytes, and the events are a prefix of those of a run that was
      not canceled. */
  lemma CancelIsPrefixCut(files: map<Path, Bytes>, cands: seq<string>, k: nat, save: Saver)
    requires Distinct(cands) && k <= |cands|
    ensures forall j :: 0 <= j < |cands| && MediaPath(cands[j]) in files ==>
              Reencode(files, cands, k, save).files[MediaPath(cands[j])]
              == if j < k then Outcome(files, cands[j], save) else files[MediaPath(cands[j])]
    ensures Reencode(files, cands, k, save).events
            <= Reencode(files, cands, |cands|, save).events
  {
    forall j | 0 <= j < |cands| && MediaPath(cands[j]) in files
      ensures Reencode(files, cands, k, save).files[MediaPath(cands[j])]
              == if j < k then Outcome(files, cands[j], save) else files[MediaPath(cands[j])]
    {
      if j < k {
        ReencodeCandidate(files, cands, k, save, j);
      } else {
        forall i | 0 <= i < k
          ensures MediaPath(cands[i]) != MediaPath(cands[j])
        {
          MediaPathInjective(cands[i], cands[j]);
        }
        ReencodeUntouched(files, cands, k, save, MediaPath(cands[j]));
      }
    }
    EventsGrow(files, cands, k, |cands|, save);
  }

  /** Processing more candidates only appends events. */
  lemma {:induction false} EventsGrow(files: map<Path, Bytes>, cands: seq<string>, k: nat, n: nat,
                                       save: Saver)
    requires k <= n <= |cands|
    ensures Reencode(files, cands, k, save).events <= Reencode(files, cands, n, save).events
  {
    if k < n {
      EventsGrow(files, cands, k, n - 1, save);
    }
  }

  /** Every event belongs to one of the first `n` candidates and carries the
      percentage of that candidate's index. */
  lemma {:induction false} EventOrigins(files: map<Path, Bytes>, cands: seq<string>, n: nat,
                                         save: Saver)
    requires n <= |cands|
    ensures forall e :: e in Reencode(files, cands, n, save).events ==>
              exists j :: 0 <= j < n && e == ProgressEvent(Percent(j, |cands|), cands[j])
  {
    if n > 0 {
      EventOrigins(files, cands, n - 1, save);
    }
  }

  /** Percentages between 0 and 100 that never decrease. */
  predicate PercentsOrdered(ev: seq<ProgressEvent>) {
    && (forall k :: 0 <= k < |ev| ==> 0 <= ev[k].percent <= 100)
    && (forall k1, k2 :: 0 <= k1 < k2 < |ev| ==> ev[k1].percent <= ev[k2].percent)
  }

  /** Appending an event whose percentage is in range and at least every earlier
      one keeps the percentages ordered. */
  lemma AppendOrdered(ev: seq<ProgressEvent>, e: ProgressEvent)
    requires PercentsOrdered(ev) && 0 <= e.percent <= 100
    requires forall k :: 0 <= k < |ev| ==> ev[k].percent <= e.percent
    ensures PercentsOrdered(ev + [e])
  {
  }

  /** The percentages of one run lie between 0 and 100 and never decrease. */
  lemma {:induction false} EventsOrdered(files: map<Path, Bytes>, cands: seq<string>, n: nat,
                                          save: Saver)
    requires n <= |cands|
    ensures PercentsOrdered(Reencode(files, cands, n, save).events)
  {
    if n > 0 {
      EventsOrdered(files, cands, n - 1, save);
      EventOrigins(files, cands, n - 1, save);
      var prev := Reencode(files, cands, n - 1, save).events;
      var last := ProgressEvent(Percent(n - 1, |cands|), cands[n - 1]);
      forall k | 0 <= k < |prev|
        ensures prev[k].percent <= last.percent
      {
        assert prev[k] in prev;
        var j :| 0 <= j < n - 1 && prev[k] == ProgressEvent(Percent(j, |cands|), cands[j]);
        PercentMonotone(j, n - 1, |cands|);
      }
      AppendOrdered(prev, last);
    }
  }

  /** No event of the first `n` candidates names a candidate not yet
      processed, when the names are distinct. */
  lemma NoEventForLater(files: map<Path, Bytes>, cands: seq<string>, n: nat, save: Saver)
    requires Distinct(cands) && n <= |cands|
    ensures forall e, j :: e in Reencode(files, cands, n, save).events && n <= j < |cands| ==> e.image != cands[j]
  {
    EventOrigins(files, cands, n, save);
  }

  /** The events after one more candidate: those before it, and its own
      event when it succeeded. */
  lemma StepEvents(prev: seq<ProgressEvent>, ev: seq<ProgressEvent>, last: ProgressEvent, ok: bool,
                    image: string)
    requires ev == if ok then prev + [last] else prev
    ensures forall e :: e in ev <==> e in prev || (ok && e == last)
    ensures (exists e :: e in ev && e.image == image)
            <==> (exists e :: e in prev && e.image == image) || (ok && last.image == image)
  {
    if e :| e in ev && e.image == image {
      assert e in prev || (ok && e == last);
    }
    if ok {
      assert last in ev;
    }
  }

  /** The events after candidate `n - 1`: those before it, followed by its
      own event exactly when its save succeeds. */
  lemma EventsStep(files: map<Path, Bytes>, cands: seq<string>, n: nat, save: Saver)
    requires Distinct(cands) && 0 < n <= |cands|
    ensures var last := ProgressEvent(Percent(n - 1, |cands|), cands[n - 1]);
            Reencode(files, cands, n, save).events
            == if Attempt(files, cands[n - 1], save).Some? then Reencode(files, cands, n - 1, save).events + [last]
               else Reencode(files, cands, n - 1, save).events
  {
    var m := n - 1;
    ReencodeStep(files, cands, m, save);
    AttemptUnaffected(files, cands, m, save, m);
    var prev := Reencode(files, cands, m, save);
    var next := Reencode(files, cands, m + 1, save);
    if Attempt(files, cands[m], save).Some? {
      assert next.events == prev.events + [ProgressEvent(Percent(m, |cands|), cands[m])];
    } else {
      assert next == prev;
    }
  }

  /** A processed candidate is named by some event exactly when its save
      succeeds. */
  lemma {:induction false} ImageNamed(files: map<Path, Bytes>, cands: seq<string>, n: nat,
                                      save: Saver, j: nat)
    requires Distinct(cands) && j < n <= |cands|
    ensures (exists e :: e in Reencode(files, cands, n, save).events && e.image == cands[j])
            <==> Attempt(files, cands[j], save).Some?
  {
    var prev := Reencode(files, cands, n - 1, save);
    var ev := Reencode(files, cands, n, save).events;
    var last := ProgressEvent(Percent(n - 1, |cands|), cands[n - 1]);
    EventsStep(files, cands, n, save);
    StepEvents(prev.events, ev, last, Attempt(files, cands[n - 1], save).Some?, cands[j]);
    if j < n - 1 {
      ImageNamed(files, cands, n - 1, save, j);
      assert last.image != cands[j];
    } else {
      NoEventForLater(files, cands, n - 1, save);
    }
  }

  /** With distinct candidate names, a candidate among the first `n` has an
      event exactly when re-encoding it succeeds; a failed one is skipped
      without any event naming it. */
  lemma {:induction false} EventForCandidate(files: map<Path, Bytes>, cands: seq<string>, n: nat,
                                              save: Saver, j: nat)
    requires Distinct(cands) && j < n <= |cands|
    ensures var ev := Reencode(files, cands, n, save).events;
            && (ProgressEvent(Percent(j, |cands|), cands[j]) in ev <==> Attempt(files, cands[j], save).Some?)
            && (Attempt(files, cands[j], save).None? ==> forall e :: e in ev ==> e.image != cands[j])
  {
    var ev := Reencode(files, cands, n, save).events;
    ImageNamed(files, cands, n, save, j);
    if Attempt(files, cands[j], save).Some? {
      EventOrigins(files, cands, n, save);
      var e :| e in ev && e.image == cands[j];
      var k :| 0 <= k < n && e == ProgressEvent(Percent(k, |cands|), cands[k]);
      assert k == j;
    }
  }

  /** When the last candidate is re-encoded successfully in a run that was not
      canceled, the last event reports 100. */
  lemma LastEventIsComplete(files: map<Path, Bytes>, cands: seq<string>, save: Saver)
    requires Distinct(cands) && |cands| > 0
    requires Attempt(files, cands[|cands| - 1], save).Some?
    ensures var ev := Reencode(files, cands, |cands|, save).events;
            |ev| > 0 && ev[|ev| - 1].percent == 100
  {
    AttemptUnaffected(files, cands, |cands| - 1, save, |cands| - 1);
  }

  /** On a listing of the media directory, the candidates are exactly its
      entries whose lowered name ends in an image suffix, each once. */
  lemma CandidatesOfListing(t: Tree, listing: seq<string>)
    requires IsEnumeration(listing, Children(t, MediaDir))
    ensures Distinct(Candidates(listing))
    ensures forall n :: n in Candidates(listing) <==> n in Children(t, MediaDir) && IsCandidateImage(n)
  {
  }

  /** A name with a proper stem whose lowered form ends in a dot-led suffix
      without further dots has that suffix as its lowered extension. */
  lemma ExtOfSuffix(name: string, suffix: string)
    requires '/' !in name
    requires exists k :: 0 <= k < LastIndexOf(name, '.') && name[k] != '.'
    requires EndsWith(Lower(name), suffix) && |suffix| > 0 && suffix[0] == '.' && '.' !in suffix[1..]
    ensures ExtOf(name) == suffix
  {
    var low := Lower(name);
    ExtensionOfLower(name);
    LastIndexOfLower(name, '.');
    LowerKeepsSeparators(name);
    SuffixDot(low, suffix);
    var k :| 0 <= k < LastIndexOf(name, '.') && name[k] != '.';
    assert low[k] != '.';
    ExtensionOfSuffix(low, suffix);
  }

  /** A candidate with a proper stem is saved under the policy of the suffix
      that made it a candidate. This is the dispatch on its own, on the options
      record; `SaverPolicy` states the same choice as the call the saver makes. */
  lemma CandidatePolicy(name: string, quality: int)
    requires '/' !in name
    requires exists k :: 0 <= k < LastIndexOf(name, '.') && name[k] != '.'
    ensures EndsWith(Lower(name), ".jpg") || EndsWith(Lower(name), ".jpeg") ==>
              SaveOptionsFor(ExtOf(name), quality) == SaveOptions(Some(quality), true)
    ensures EndsWith(Lower(name), ".png") ==> SaveOptionsFor(ExtOf(name), quality) == SaveOptions(None, true)
    ensures EndsWith(Lower(name), ".bmp") ==> SaveOptionsFor(ExtOf(name), quality) == SaveOptions(None, false)
  {
    var low := Lower(name);
    if EndsWith(low, ".jpg") {
      SuffixPolicy(name, ".jpg", quality);
    } else if EndsWith(low, ".jpeg") {
      SuffixPolicy(name, ".jpeg", quality);
    } else if EndsWith(low, ".png") {
      SuffixPolicy(name, ".png", quality);
    } else if EndsWith(low, ".bmp") {
      SuffixPolicy(name, ".bmp", quality);
    }
  }

  /** The save options of such a name are those of its suffix. */
  lemma SuffixPolicy(name: string, suffix: string, quality: int)
    requires '/' !in name
    requires exists k :: 0 <= k < LastIndexOf(name, '.') && name[k] != '.'
    requires EndsWith(Lower(name), suffix) && |suffix| > 0 && suffix[0] == '.' && '.' !in suffix[1..]
    ensures SaveOptionsFor(ExtOf(name), quality) == SaveOptionsFor(suffix, quality)
  {
    ExtOfSuffix(name, suffix);
  }

  /** The encoder is called on a candidate with a non-dot stem with the
      suffix that made it a candidate and that suffix's options: the job's
      quality and optimisation for JPEG, optimisation for PNG, a plain save for
      BMP. */
  lemma SaverPolicy(name: string, quality: int, encode: Encoder, b: Bytes)
    requires '/' !in name
    requires exists k :: 0 <= k < LastIndexOf(name, '.') && name[k] != '.'
    ensures EndsWith(Lower(name), ".jpg") ==>
              SaveImage(quality, encode)(name, b) == encode(".jpg", SaveOptions(Some(quality), true), b)
    ensures EndsWith(Lower(name), ".jpeg") ==>
              SaveImage(quality, encode)(name, b) == encode(".jpeg", SaveOptions(Some(quality), true), b)
    ensures EndsWith(Lower(name), ".png") ==>
              SaveImage(quality, encode)(name, b) == encode(".png", SaveOptions(None, true), b)
    ensures EndsWith(Lower(name), ".bmp") ==>
              SaveImage(quality, encode)(name, b) == encode(".bmp", SaveOptions(None, false), b)
  {
    var low := Lower(name);
    if EndsWith(low, ".jpg") {
      SuffixSaved(name, ".jpg", quality, encode, b);
    } else if EndsWith(low, ".jpeg") {
      SuffixSaved(name, ".jpeg", quality, encode, b);
    } else if EndsWith(low, ".png") {
      SuffixSaved(name, ".png", quality, encode, b);
    } else if EndsWith(low, ".bmp") {
      SuffixSaved(name, ".bmp", quality, encode, b);
    }
  }

  /** Such a name is saved under its suffix with that suffix's options. */
  lemma SuffixSaved(name: string, suffix: string, quality: int, encode: Encoder, b: Bytes)
    requires '/' !in name
    requires exists k :: 0 <= k < LastIndexOf(name, '.') && name[k] != '.'
    requires EndsWith(Lower(name), suffix) && |suffix| > 0 && suffix[0] == '.' && '.' !in suffix[1..]
    ensures SaveImage(quality, encode)(name, b) == encode(suffix, SaveOptionsFor(suffix, quality), b)
  {
    ExtOfSuffix(name, suffix);
  }

  /** A name whose characters before its last dot are all dots (".png",
      "..JPEG") has no extension, so it gets the plain save whatever suffix made
      it a candidate: such a JPEG loses the job's quality. */
  lemma DotStemSavedPlain(name: string, quality: int)
    requires '/' !in name
    requires forall k :: 0 <= k < LastIndexOf(name, '.') ==> name[k] == '.'
    ensures ExtOf(name) == ""
    ensures SaveOptionsFor(ExtOf(name), quality) == SaveOptions(None, false)
  {
  }

}
