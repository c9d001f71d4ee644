/** The download script's own logic (index.mjs:73-105): the choice of the best
    format not above 1080p, and the steps the two download branches take. The
    video information, the clock and the file system are parameters. */
module Downloader {
  import opened Wrappers
  import opened Numbers
  import opened JsValues
  import opened ArraySort
  import Command

  /** The highest quality the script accepts, in lines. */
  const MaxQuality := 1080

  /** `parseInt(format.qualityLabel) || 0`: a non-zero quality is the number the
      label starts with; NaN becomes 0, and so does a format without a label
      (audio only), whose label reads "undefined". */
  function Quality(format: Record): (q: int)
    ensures q != 0 ==> ParseInt(ToJsString(Get(format, "qualityLabel"))) == Some(q)
    ensures "qualityLabel" !in format ==> q == 0
  {
    var text := ToJsString(Get(format, "qualityLabel"));
    assert "qualityLabel" !in format ==> text[0] == 'u' && DigitRun(Unsigned(text)) == 0;
    ParseInt(text).GetOr(0)
  }

  /** A label such as "720p60" gives its leading number. */
  lemma QualityOfLabel(format: Record, n: nat, suffix: string)
    requires Get(format, "qualityLabel") == Str(NatToString(n) + suffix)
    requires suffix == "" || !IsDigit(suffix[0])
    ensures Quality(format) == n
  {
    ParseIntOfLabel(n, suffix);
  }

  /** The sort key of a `[format, quality]` pair. */
  function QualityKey<T>(c: (T, int)): int {
    c.1
  }

  /** `meta.formats.map(format => [format, parseInt(format.qualityLabel) || 0])`. */
  function Labelled(formats: seq<Record>): (labels: seq<(Record, int)>)
    ensures |labels| == |formats|
    ensures forall k :: 0 <= k < |formats| ==> labels[k] == (formats[k], Quality(formats[k]))
  {
    seq(|formats|, k requires 0 <= k < |formats| => (formats[k], Quality(formats[k])))
  }

  /** `.filter(([_, q]) => q <= 1080)`: the pairs of acceptable quality, in order. */
  function Candidates<T>(labels: seq<(T, int)>): (c: seq<(T, int)>)
    ensures forall p :: p in c ==> p in labels && p.1 <= MaxQuality
    ensures forall p :: p in labels && p.1 <= MaxQuality ==> p in c
    decreases |labels|
  {
    if labels == [] then []
    else
      var n := |labels| - 1;
      var p := labels[n];
      assert forall g :: g in labels[..n] ==> g in labels;
      assert forall g :: g in labels ==> g in labels[..n] || g == p;
      Candidates(labels[..n]) + (if p.1 <= MaxQuality then [p] else [])
  }

  /** `labels.sort((prev, cur) => prev[1] - cur[1]).slice(-1)[0]`; None when no
      format qualifies, where destructuring `undefined` throws a TypeError. */
  function PickBest(formats: seq<Record>): (best: Option<(Record, int)>)
    ensures best.None? <==> forall f :: f in formats ==> Quality(f) > MaxQuality
  {
    NoCandidates(formats);
    if Candidates(Labelled(formats)) == [] then None
    else Some(Last(Sort(Candidates(Labelled(formats)), ByKey(QualityKey))))
  }

  /** No pair survives the filter exactly when every format is above 1080 lines. */
  lemma NoCandidates(formats: seq<Record>)
    ensures Candidates(Labelled(formats)) == [] <==> forall f :: f in formats ==> Quality(f) > MaxQuality
  {
    forall f | f in formats && Quality(f) <= MaxQuality
      ensures Candidates(Labelled(formats)) != []
    {
      var k :| 0 <= k < |formats| && formats[k] == f;
      assert Labelled(formats)[k] in Labelled(formats);
    }
    if Candidates(Labelled(formats)) != [] {
      CandidateIsFormat(formats, Candidates(Labelled(formats))[0]);
    }
  }

  /** A surviving pair is a format of acceptable quality. */
  lemma CandidateIsFormat(formats: seq<Record>, p: (Record, int))
    requires p in Candidates(Labelled(formats))
    ensures p.0 in formats && Quality(p.0) <= MaxQuality
  {
    var k :| 0 <= k < |formats| && Labelled(formats)[k] == p;
    assert formats[k] == p.0;
  }

  /** Reference definition: the position of the last pair of the largest quality
      not above 1080, scanning the pairs in order. */
  function BestIndex<T>(labels: seq<(T, int)>): (i: Option<nat>)
    ensures i.None? <==> forall k :: 0 <= k < |labels| ==> labels[k].1 > MaxQuality
    ensures i.Some? ==> i.value < |labels| && labels[i.value].1 <= MaxQuality
    ensures i.Some? ==> forall k :: 0 <= k < |labels| && labels[k].1 <= MaxQuality ==>
      labels[k].1 <= labels[i.value].1
    ensures i.Some? ==> forall k :: i.value < k < |labels| && labels[k].1 <= MaxQuality ==>
      labels[k].1 < labels[i.value].1
    decreases |labels|
  {
    if labels == [] then None
    else
      var n := |labels| - 1;
      var b := BestIndex(labels[..n]);
      assert forall k :: 0 <= k < n ==> labels[..n][k] == labels[k];
      var q := labels[n].1;
      if q > MaxQuality then b
      else if b.None? || q >= labels[b.value].1 then Some(n)
      else b
  }

  /** The candidates' last element of largest key is the pair `BestIndex` finds. */
  lemma {:induction false} CandidatesBest<T>(labels: seq<(T, int)>)
    ensures Candidates(labels) == [] <==> BestIndex(labels).None?
    ensures Candidates(labels) != [] ==>
      var c := Candidates(labels);
      c[LastMaxIndex(c, QualityKey)] == labels[BestIndex(labels).value]
    decreases |labels|
  {
    if labels != [] {
      var n := |labels| - 1;
      var front := labels[..n];
      var p := labels[n];
      CandidatesBest(front);
      var c', c := Candidates(front), Candidates(labels);
      var b := BestIndex(front);
      if b.Some? {
        assert front[b.value] == labels[b.value];
      }
      if p.1 <= MaxQuality {
        assert c == c' + [p];
        assert c[..|c| - 1] == c';
      } else {
        assert c == c';
      }
    }
  }

  /** The pick is the pair `BestIndex` finds. */
  lemma PickBestIsBestIndex(formats: seq<Record>)
    ensures var labels := Labelled(formats);
      PickBest(formats) ==
        match BestIndex(labels)
        case None => None
        case Some(i) => Some(labels[i])
  {
    var c := Candidates(Labelled(formats));
    CandidatesBest(Labelled(formats));
    if c != [] {
      LastOfSortByKey(c, QualityKey);
    }
  }

  /** `formats[i]` is of quality at most 1080, at least that of every format of
      quality at most 1080, and above that of every later one. */
  predicate IsBest(formats: seq<Record>, i: nat) {
    && i < |formats|
    && Quality(formats[i]) <= MaxQuality
    && (forall k :: 0 <= k < |formats| && Quality(formats[k]) <= MaxQuality ==>
          Quality(formats[k]) <= Quality(formats[i]))
    && (forall k :: i < k < |formats| && Quality(formats[k]) <= MaxQuality ==>
          Quality(formats[k]) < Quality(formats[i]))
  }

  /** The format the script downloads is the last, in `meta.formats` order, of
      those of the largest quality not above 1080; with no such format, it throws. */
  lemma PickBestSpec(formats: seq<Record>)
    ensures PickBest(formats).None? <==> forall k :: 0 <= k < |formats| ==> Quality(formats[k]) > MaxQuality
    ensures PickBest(formats).Some? ==>
      var i := BestIndex(Labelled(formats)).value;
      IsBest(formats, i) && PickBest(formats).value == (formats[i], Quality(formats[i]))
  {
    PickBestIsBestIndex(formats);
    BestIndexIsBest(formats);
  }

  /** `BestIndex` over the labelled formats finds a best format. */
  lemma BestIndexIsBest(formats: seq<Record>)
    ensures var b := BestIndex(Labelled(formats));
      (b.None? <==> forall k :: 0 <= k < |formats| ==> Quality(formats[k]) > MaxQuality)
      && (b.Some? ==> IsBest(formats, b.value) && Labelled(formats)[b.value] == (formats[b.value], Quality(formats[b.value])))
  {
    var labels := Labelled(formats);
    assert forall k :: 0 <= k < |formats| ==> labels[k].1 == Quality(formats[k]);
  }

  /** The prefix `mkdtempSync` gives the temporary directory. */
  const TempPrefix := "yt-video-downloader-"

  /** What `mkdtempSync` and the two `Math.random` names produced: the directory
      and the audio and video files inside it. */
  datatype TempFiles = TempFiles(dir: string, audio: string, video: string)

  /** One step of a download: an awaited action that can fail. */
  datatype Step =
    | MakeTempDir(prefix: string)
    | Download(filter: string, path: string)
    | Exec(command: string)
    | Stream(itag: Value, path: string)

  /** `rm -R <dir>`. */
  function RemoveCommand(dir: string): string {
    "rm -R " + dir
  }

  /** The split branch's work inside the temporary directory (index.mjs:89-96). */
  function Body(reencode: bool, file: string, temp: TempFiles): seq<Step> {
    [ Download("audioonly", temp.audio),
      Download("videoonly", temp.video),
      Exec(Command.MergeCommand(temp.video, temp.audio, reencode, file)) ]
  }

  /** The steps the script means to take for the chosen format (index.mjs:85-105):
      a single stream to the file when the format carries audio, otherwise the
      temporary directory, both downloads, the merge and the removal. */
  function Plan(best: Record, reencode: bool, file: string, temp: TempFiles): (p: seq<Step>)
    ensures Truthy(Get(best, "hasAudio")) <==> |p| == 1
    ensures Truthy(Get(best, "hasAudio")) ==> forall s :: s in p ==> s.Stream? && s.path == file
    ensures !Truthy(Get(best, "hasAudio")) ==>
      && |p| == 5
      && p[0] == MakeTempDir(TempPrefix)
      && p[|p| - 1] == Exec(RemoveCommand(temp.dir))
      && Exec(RemoveCommand(temp.dir)) !in p[..|p| - 1]
  {
    if Truthy(Get(best, "hasAudio")) then [Stream(Get(best, "itag"), file)]
    else
      var p := [MakeTempDir(TempPrefix)] + Body(reencode, file, temp) + [Exec(RemoveCommand(temp.dir))];
      MergeIsNotRemoval(reencode, file, temp);
      assert p[..|p| - 1] == [MakeTempDir(TempPrefix)] + Body(reencode, file, temp);
      p
  }

  /** The merge command is not the removal: one starts with "f", the other with "r". */
  lemma MergeIsNotRemoval(reencode: bool, file: string, temp: TempFiles)
    ensures Exec(RemoveCommand(temp.dir)) !in Body(reencode, file, temp)
  {
    assert Command.MergeCommand(temp.video, temp.audio, reencode, file)[0] == 'f';
    assert RemoveCommand(temp.dir)[0] == 'r';
  }

  /** The steps that run when `fails` says which of them throw: every step up to
      and including the first that throws. */
  function Executed(steps: seq<Step>, fails: Step -> bool): (r: seq<Step>)
    ensures |r| <= |steps| && r == steps[..|r|]
    ensures forall i :: 0 <= i < |r| - 1 ==> !fails(r[i])
    ensures |r| < |steps| ==> r != [] && fails(r[|r| - 1])
    ensures steps != [] ==> r != []
    decreases |steps|
  {
    if steps == [] then []
    else if fails(steps[0]) then [steps[0]]
    else
      var rest := Executed(steps[1..], fails);
      assert steps[1..][..|rest|] == steps[1..|rest| + 1];
      [steps[0]] + rest
  }

  /** Without a failure every step runs. */
  lemma ExecutedAll(steps: seq<Step>, fails: Step -> bool)
    requires forall i :: 0 <= i < |steps| ==> !fails(steps[i])
    ensures Executed(steps, fails) == steps
  {
  }

  /** The steps as the script runs them: the removal of the temporary directory
      comes after the other steps and is skipped when any of them throws. */
  function TraceAsWritten(best: Record, reencode: bool, file: string, temp: TempFiles,
                          fails: Step -> bool): (t: seq<Step>)
    ensures t != [] && |t| <= |Plan(best, reencode, file, temp)|
    ensures t == Plan(best, reencode, file, temp)[..|t|]
    ensures Exec(RemoveCommand(temp.dir)) in t ==> t == Plan(best, reencode, file, temp)
  {
    var plan := Plan(best, reencode, file, temp);
    var t := Executed(plan, fails);
    OnlyAtEnd(plan, t, Exec(RemoveCommand(temp.dir)));
    t
  }

  /** A step that occurs in the plan only as its last step runs only when the
      whole plan ran. */
  lemma OnlyAtEnd(plan: seq<Step>, t: seq<Step>, last: Step)
    requires |t| <= |plan| && t == plan[..|t|]
    requires plan != [] && last !in plan[..|plan| - 1]
    ensures last in t ==> t == plan
  {
  }

  /** In the split branch the steps run in the written order, and the combined
      branch makes no temporary directory. */
  lemma TraceOrder(best: Record, reencode: bool, file: string, temp: TempFiles, fails: Step -> bool)
    ensures var t := TraceAsWritten(best, reencode, file, temp, fails);
      if Truthy(Get(best, "hasAudio")) then t == [Stream(Get(best, "itag"), file)]
      else
        && 1 <= |t| <= 5
        && t == ([MakeTempDir(TempPrefix)] + Body(reencode, file, temp) + [Exec(RemoveCommand(temp.dir))])[..|t|]
  {
  }

  /** As written, the temporary directory is removed exactly when creating it,
      both downloads and the merge all succeed. */
  lemma RemovedOnlyOnSuccess(best: Record, reencode: bool, file: string, temp: TempFiles, fails: Step -> bool)
    requires !Truthy(Get(best, "hasAudio"))
    ensures var t := TraceAsWritten(best, reencode, file, temp, fails);
      var earlier := [MakeTempDir(TempPrefix)] + Body(reencode, file, temp);
      Exec(RemoveCommand(temp.dir)) in t <==> forall i :: 0 <= i < 4 ==> !fails(earlier[i])
  {
    var plan := Plan(best, reencode, file, temp);
    var t := Executed(plan, fails);
    var earlier := [MakeTempDir(TempPrefix)] + Body(reencode, file, temp);
    var rm := Exec(RemoveCommand(temp.dir));
    assert Command.MergeCommand(temp.video, temp.audio, reencode, file)[0] == 'f';
    assert RemoveCommand(temp.dir)[0] == 'r';
    assert forall i :: 0 <= i < 4 ==> plan[i] == earlier[i] && plan[i] != rm;
    if rm in t {
      assert t[4] == rm;
    }
    if forall i :: 0 <= i < 4 ==> !fails(earlier[i]) {
      assert t[4] == rm;
    }
  }

  /** As written, a failed audio download leaves the temporary directory behind. */
  lemma TempDirLeaks(best: Record, reencode: bool, file: string, temp: TempFiles)
    requires !Truthy(Get(best, "hasAudio"))
    ensures var fails := (s: Step) => s == Download("audioonly", temp.audio);
      var t := TraceAsWritten(best, reencode, file, temp, fails);
      t == [MakeTempDir(TempPrefix), Download("audioonly", temp.audio)]
      && Exec(RemoveCommand(temp.dir)) !in t
  {
    var fails := (s: Step) => s == Download("audioonly", temp.audio);
    var plan := Plan(best, reencode, file, temp);
    assert plan[1] == Download("audioonly", temp.audio);
    assert Executed(plan, fails) == [plan[0]] + Executed(plan[1..], fails);
    assert Executed(plan[1..], fails) == [plan[1]];
  }

  /** The split branch with the removal in a `finally`: in the split branch the
      directory is removed exactly when it was made, and then as the last step,
      whether or not a later step throws. */
  function TraceWithCleanup(best: Record, reencode: bool, file: string, temp: TempFiles,
                            fails: Step -> bool): (t: seq<Step>)
    ensures t != []
    ensures !Truthy(Get(best, "hasAudio")) ==>
      (Exec(RemoveCommand(temp.dir)) in t <==> !fails(MakeTempDir(TempPrefix)))
    ensures !Truthy(Get(best, "hasAudio")) && !fails(MakeTempDir(TempPrefix)) ==>
      |t| >= 3 && t[0] == MakeTempDir(TempPrefix) && t[|t| - 1] == Exec(RemoveCommand(temp.dir))
  {
    if Truthy(Get(best, "hasAudio")) then Executed([Stream(Get(best, "itag"), file)], fails)
    else if fails(MakeTempDir(TempPrefix)) then [MakeTempDir(TempPrefix)]
    else
      var body := Body(reencode, file, temp);
      var ran := Executed(body, fails);
      MergeIsNotRemoval(reencode, file, temp);
      assert forall k :: 0 <= k < |ran| ==> ran[k] == body[k];
      [MakeTempDir(TempPrefix)] + ran + [Exec(RemoveCommand(temp.dir))]
  }

  /** When nothing throws, the corrected branch takes the same steps as the script. */
  lemma CleanupAgreesWithoutFailure(best: Record, reencode: bool, file: string, temp: TempFiles, fails: Step -> bool)
    requires forall s :: s in Plan(best, reencode, file, temp) ==> !fails(s)
    ensures TraceWithCleanup(best, reencode, file, temp, fails) == TraceAsWritten(best, reencode, file, temp, fails)
  {
    var plan := Plan(best, reencode, file, temp);
    ExecutedAll(plan, fails);
    if !Truthy(Get(best, "hasAudio")) {
      var body := Body(reencode, file, temp);
      assert forall i :: 0 <= i < |body| ==> body[i] == plan[i + 1];
      ExecutedAll(body, fails);
    }
  }

  /** A whole run after the video information arrived, as the script runs it: the
      pick, then the branch for the chosen format; no step runs when no format
      qualifies. */
  function Session(formats: seq<Record>, reencode: bool, file: string, temp: TempFiles,
                   fails: Step -> bool): (steps: seq<Step>)
    ensures steps == [] <==> forall f :: f in formats ==> Quality(f) > MaxQuality
    ensures PickBest(formats).Some? ==>
      steps == TraceAsWritten(PickBest(formats).value.0, reencode, file, temp, fails)
  {
    match PickBest(formats)
    case None => []
    case Some(best) => TraceAsWritten(best.0, reencode, file, temp, fails)
  }

  /** A whole run with the removal in a `finally`: for a chosen format without
      audio whose directory was made, the run ends by removing it. */
  function SessionWithCleanup(formats: seq<Record>, reencode: bool, file: string, temp: TempFiles,
                              fails: Step -> bool): (steps: seq<Step>)
    ensures steps == [] <==> forall f :: f in formats ==> Quality(f) > MaxQuality
    ensures PickBest(formats).Some? ==>
      steps == TraceWithCleanup(PickBest(formats).value.0, reencode, file, temp, fails)
    ensures (PickBest(formats).Some? && !Truthy(Get(PickBest(formats).value.0, "hasAudio"))
      && !fails(MakeTempDir(TempPrefix))) ==> steps[|steps| - 1] == Exec(RemoveCommand(temp.dir))
  {
    match PickBest(formats)
    case None => []
    case Some(best) => TraceWithCleanup(best.0, reencode, file, temp, fails)
  }

  /** The merge step hands ffmpeg the video file, then the audio file, then the
      output file, with "-c:v copy" exactly when not re-encoding. */
  lemma MergeStep(best: Record, reencode: bool, file: string, temp: TempFiles)
    requires !Truthy(Get(best, "hasAudio"))
    requires Command.NoQuote(temp.video) && Command.NoQuote(temp.audio) && Command.NoQuote(file)
    ensures var step := Plan(best, reencode, file, temp)[3];
      && step.Exec?
      && Command.Words(step.command)
         == ["ffmpeg.exe", "-y", "-i", temp.video, "-i", temp.audio]
            + (if !reencode then ["-c:v", "copy"] else [])
            + ["-shortest", file]
  {
    Command.MergeArguments(temp.video, temp.audio, reencode, file);
  }
}
