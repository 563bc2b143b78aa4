/**
 * The control flow of pushBackupFromTo and RunTakeBackupCommand in
 * pkg/sidecar/apptakebackup.go. Every external effect (the backup request, the pipe
 * set-up, the exit results of gzip and of rclone rcat, the trailer check, and Start and
 * Wait of each promotion command) is an input outcome; the run yields its error (None
 * for nil) and the ordered trace of the commands it tried to start. A command enters
 * the trace before its Start outcome is read, so one whose Start fails is recorded too.
 */
module TakeBackup {
  import opened Wrappers
  import opened GoPath
  import opened Naming

  /** The fixed local staging file rclone rcat writes and the upload reads. */
  const LocalTemp := "/tmp/backup.gz"

  /** A process the run tries to start (the configured rclone arguments are left implicit). */
  datatype Command =
    | Gzip                               // gzip -c, fed the backup response body
    | Rcat(target: string)               // rclone rcat <target>, fed gzip's output
    | CopyTo(src: string, dst: string)   // rclone copyto <src> <dst>
    | MoveTo(src: string, dst: string)   // rclone moveto <src> <dst>

  /** The error results of Start and of Wait of one promotion command. */
  datatype StepOutcome = StepOutcome(start: Option<string>, wait: Option<string>)

  /** What the outside world answers during one run; None is a nil error. */
  datatype Outcomes = Outcomes(
    request: Option<string>,   // requestABackup
    pipe: Option<string>,      // gzip.StdoutPipe
    gzip: Option<string>,      // gzip.Run
    rcat: Option<string>,      // rclone rcat Run
    gzipFirst: bool,           // whether gzip's result reaches the channel first
    trailer: Option<string>,   // checkBackupTrailers
    upload: StepOutcome,       // copyto local -> temp
    clone: StepOutcome,        // copyto temp -> latest
    rename: StepOutcome)       // moveto temp -> final

  /** The stages of a run, each of which can end it. */
  datatype Stage = Request | Pipe | Workers | Trailer | Upload | Cloning | Renaming

  /** The order in which the stages run. */
  const Pipeline: seq<Stage> := [Request, Pipe, Workers, Trailer, Upload, Cloning, Renaming]

  /** The error a run returns: the stage that failed and the underlying error text. */
  datatype Failure = Failure(stage: Stage, cause: string)

  /** One run: its error (None when it returns nil) and the commands it tried to start, in order. */
  datatype Run = Run(err: Option<Failure>, trace: seq<Command>)

  /** The text fmt.Errorf puts in front of the cause; worker, pipe and trailer errors pass unwrapped. */
  function Prefix(s: Stage): (r: string)
    ensures r == "" <==> s in {Pipe, Workers, Trailer}
    ensures r != "" ==> |r| >= 2 && r[|r| - 2..] == ": "
  {
    match s
    case Request => "getting backup: "
    case Upload => "upload failed: "
    case Cloning => "cloning failed: "
    case Renaming => "renaming failed: "
    case _ => ""
  }

  /** The text of the returned error. */
  function Message(f: Failure): string
  {
    Prefix(f.stage) + f.cause
  }

  /** The two worker results in the order they arrive on the channel. */
  function Arrivals(o: Outcomes): seq<Option<string>>
  {
    if o.gzipFirst then [o.gzip, o.rcat] else [o.rcat, o.gzip]
  }

  /** The join's verdict on results in arrival order: the first non-nil one, or nil. */
  function FirstError(rs: seq<Option<string>>): (r: Option<string>)
    ensures r.None? <==> forall i :: 0 <= i < |rs| ==> rs[i].None?
  {
    if rs == [] then None
    else if rs[0].Some? then rs[0]
    else FirstError(rs[1..])
  }

  /** A non-nil verdict of the join is a result that only nil results arrived before. */
  lemma {:induction false} FirstErrorIsFirst(rs: seq<Option<string>>)
    requires FirstError(rs).Some?
    ensures exists k :: 0 <= k < |rs| && rs[k] == FirstError(rs) && forall j :: 0 <= j < k ==> rs[j].None?
  {
    if rs[0].None? {
      FirstErrorIsFirst(rs[1..]);
      var k :| 0 <= k < |rs[1..]| && rs[1..][k] == FirstError(rs[1..]) && forall j :: 0 <= j < k ==> rs[1..][j].None?;
      assert rs[k + 1] == FirstError(rs) && forall j :: 0 <= j < k + 1 ==> rs[j].None?;
    }
  }

  /** The join over exactly two results, as the drain loop of two iterations sees them. */
  lemma FirstErrorOfPair(a: Option<string>, b: Option<string>)
    ensures FirstError([a, b]) == if a.Some? then a else b
  {
    assert [a, b][1..] == [b];
    assert [b][1..] == [];
  }

  /** A command run with Start and then Wait fails with Start's error, else with Wait's. */
  function StepError(s: StepOutcome): (r: Option<string>)
    ensures r.None? <==> s.start.None? && s.wait.None?
    ensures s.start.Some? ==> r == s.start
    ensures s.start.None? ==> r == s.wait
  {
    if s.start.Some? then s.start else s.wait
  }

  /** The error, if any, with which stage s ends the run. */
  function StageError(o: Outcomes, s: Stage): Option<string>
  {
    match s
    case Request => o.request
    case Pipe => o.pipe
    case Workers => FirstError(Arrivals(o))
    case Trailer => o.trailer
    case Upload => StepError(o.upload)
    case Cloning => StepError(o.clone)
    case Renaming => StepError(o.rename)
  }

  /** Every command of a run in which every stage succeeds. */
  function FullTrace(dest: string): seq<Command>
  {
    var tmp := TempDest(dest);
    [Gzip, Rcat(LocalTemp), CopyTo(LocalTemp, tmp), CopyTo(tmp, LatestDest(dest)), MoveTo(tmp, dest)]
  }

  /** How many commands of FullTrace have been attempted once stage s has run. */
  function Attempted(s: Stage): nat
  {
    match s
    case Request => 0
    case Pipe => 0
    case Workers => 2
    case Trailer => 2
    case Upload => 3
    case Cloning => 4
    case Renaming => 5
  }

  /** The position in Pipeline, from k on, of the first stage that fails. */
  function FirstFailing(o: Outcomes, k: nat): (r: Option<nat>)
    requires k <= |Pipeline|
    ensures r.Some? ==> k <= r.value < |Pipeline| && StageError(o, Pipeline[r.value]).Some?
    ensures r.Some? ==> forall j :: k <= j < r.value ==> StageError(o, Pipeline[j]).None?
    ensures r.None? ==> forall j :: k <= j < |Pipeline| ==> StageError(o, Pipeline[j]).None?
    decreases |Pipeline| - k
  {
    if k == |Pipeline| then None
    else if StageError(o, Pipeline[k]).Some? then Some(k)
    else FirstFailing(o, k + 1)
  }

  /**
   * What a run does: the first failing stage's error wins, and the trace stops after
   * the commands that stage attempted; with no failure the run returns nil after
   * attempting every command. Every trace is a prefix of the full one, and a failure
   * carries the cause its stage produced.
   */
  function Spec(dest: string, o: Outcomes): (r: Run)
    ensures r.trace <= FullTrace(dest)
    ensures r.err.None? ==> r.trace == FullTrace(dest)
    ensures r.err.Some? ==> StageError(o, r.err.value.stage) == Some(r.err.value.cause)
  {
    match FirstFailing(o, 0)
    case None => Run(None, FullTrace(dest))
    case Some(k) =>
      var s := Pipeline[k];
      Run(Some(Failure(s, StageError(o, s).value)), FullTrace(dest)[..Attempted(s)])
  }

  /** The stages of Pipeline before k all succeed. */
  predicate PassedBefore(o: Outcomes, k: nat)
    requires k <= |Pipeline|
  {
    forall j :: 0 <= j < k ==> StageError(o, Pipeline[j]).None?
  }

  /** Passing stage k moves the search for the first failure one stage on. */
  lemma PassStage(o: Outcomes, k: nat)
    requires k < |Pipeline| && PassedBefore(o, k)
    requires FirstFailing(o, 0) == FirstFailing(o, k)
    requires StageError(o, Pipeline[k]).None?
    ensures PassedBefore(o, k + 1)
    ensures FirstFailing(o, 0) == FirstFailing(o, k + 1)
  {
  }

  /**
   * pushBackupFromTo: request the backup, pipe it through gzip into rclone rcat, join
   * both workers, check the trailers, then upload to the temp name, clone it as latest
   * and move it to the final name, each step gated on the previous one.
   */
  method PushBackupFromTo(dest: string, o: Outcomes) returns (err: Option<Failure>, trace: seq<Command>)
    ensures Run(err, trace) == Spec(dest, o)
  {
    var tmp := TempDest(dest);
    var latest := LatestDest(dest);
    ghost var full := FullTrace(dest);
    trace := [];

    if o.request.Some? {
      return Some(Failure(Request, o.request.value)), trace;
    }
    PassStage(o, 0);
    if o.pipe.Some? {
      return Some(Failure(Pipe, o.pipe.value)), trace;
    }
    PassStage(o, 1);

    trace := trace + [Gzip, Rcat(LocalTemp)];
    var results := Arrivals(o);
    var i := 0;
    while i < 2
      invariant 0 <= i <= 2
      invariant forall j :: 0 <= j < i ==> results[j].None?
    {
      if results[i].Some? {
        assert FirstError(results) == results[i];
        return Some(Failure(Workers, results[i].value)), trace;
      }
      i := i + 1;
    }
    PassStage(o, 2);

    if o.trailer.Some? {
      return Some(Failure(Trailer, o.trailer.value)), trace;
    }
    PassStage(o, 3);

    trace := trace + [CopyTo(LocalTemp, tmp)];
    assert trace == full[..3];
    if o.upload.start.Some? {
      return Some(Failure(Upload, o.upload.start.value)), trace;
    }
    if o.upload.wait.Some? {
      return Some(Failure(Upload, o.upload.wait.value)), trace;
    }
    PassStage(o, 4);

    trace := trace + [CopyTo(tmp, latest)];
    assert trace == full[..4];
    if o.clone.start.Some? {
      return Some(Failure(Cloning, o.clone.start.value)), trace;
    }
    if o.clone.wait.Some? {
      return Some(Failure(Cloning, o.clone.wait.value)), trace;
    }
    PassStage(o, 5);

    trace := trace + [MoveTo(tmp, dest)];
    if o.rename.start.Some? {
      return Some(Failure(Renaming, o.rename.start.value)), trace;
    }
    if o.rename.wait.Some? {
      return Some(Failure(Renaming, o.rename.wait.value)), trace;
    }
    PassStage(o, 6);
    return None, trace;
  }

  /** RunTakeBackupCommand: normalise the bucket URI, then push the backup to it. */
  method RunTakeBackupCommand(destBucket: string, o: Outcomes) returns (err: Option<Failure>, trace: seq<Command>)
    ensures Run(err, trace) == Spec(NormalizeBucketURI(destBucket), o)
  {
    var dest := NormalizeBucketURI(destBucket);
    err, trace := PushBackupFromTo(dest, o);
  }

  /** The object a command writes, if any. */
  function Target(c: Command): Option<string>
  {
    match c
    case Gzip => None
    case Rcat(t) => Some(t)
    case CopyTo(_, d) => Some(d)
    case MoveTo(_, d) => Some(d)
  }

  /** Every outcome of a run is nil. */
  predicate AllSucceed(o: Outcomes)
  {
    o.request.None? && o.pipe.None? && o.gzip.None? && o.rcat.None? && o.trailer.None?
    && o.upload.start.None? && o.upload.wait.None?
    && o.clone.start.None? && o.clone.wait.None?
    && o.rename.start.None? && o.rename.wait.None?
  }

  /**
   * A failed run failed at the first stage whose outcome is an error: every earlier
   * stage passed, the error carries that stage's own cause, and the trace ends with
   * the commands of that stage.
   */
  lemma FirstFailureWins(dest: string, o: Outcomes)
    requires Spec(dest, o).err.Some?
    ensures var f := Spec(dest, o).err.value;
      exists k :: 0 <= k < |Pipeline| && Pipeline[k] == f.stage && PassedBefore(o, k)
        && StageError(o, f.stage) == Some(f.cause)
        && Spec(dest, o).trace == FullTrace(dest)[..Attempted(f.stage)]
  {
    var k := FirstFailing(o, 0).value;
    assert Pipeline[k] == Spec(dest, o).err.value.stage;
  }

  /** A failed backup request fails the run with "getting backup: " before any command is tried. */
  lemma RequestFailureStartsNothing(dest: string, o: Outcomes)
    requires o.request.Some?
    ensures Spec(dest, o) == Run(Some(Failure(Request, o.request.value)), [])
    ensures Message(Spec(dest, o).err.value) == "getting backup: " + o.request.value
  {
  }

  /**
   * The join of the two workers fails the run with the first non-nil result in arrival
   * order, after both were started and before any promotion command.
   */
  lemma WorkerFailureStopsRun(dest: string, o: Outcomes)
    requires o.request.None? && o.pipe.None?
    requires o.gzip.Some? || o.rcat.Some?
    ensures var first := if Arrivals(o)[0].Some? then Arrivals(o)[0] else Arrivals(o)[1];
      Spec(dest, o) == Run(Some(Failure(Workers, first.value)), [Gzip, Rcat(LocalTemp)])
  {
    assert StageError(o, Pipeline[0]).None? && StageError(o, Pipeline[1]).None?;
    FirstErrorOfPair(Arrivals(o)[0], Arrivals(o)[1]);
    assert Arrivals(o) == [Arrivals(o)[0], Arrivals(o)[1]];
    assert StageError(o, Pipeline[2]).Some?;
  }

  /** A failing gzip fails the run whether or not rclone rcat exits cleanly, in either arrival order. */
  lemma GzipFailureFailsRun(dest: string, o: Outcomes)
    requires o.request.None? && o.pipe.None? && o.gzip.Some? && o.rcat.None?
    ensures Spec(dest, o) == Run(Some(Failure(Workers, o.gzip.value)), [Gzip, Rcat(LocalTemp)])
  {
    WorkerFailureStopsRun(dest, o);
  }

  /** A trailer check that fails after both workers succeed ends the run with no promotion command. */
  lemma TrailerFailureBlocksPromotion(dest: string, o: Outcomes)
    requires o.request.None? && o.pipe.None? && o.gzip.None? && o.rcat.None?
    requires o.trailer.Some?
    ensures Spec(dest, o) == Run(Some(Failure(Trailer, o.trailer.value)), [Gzip, Rcat(LocalTemp)])
    ensures forall c :: c in Spec(dest, o).trace ==> !c.CopyTo? && !c.MoveTo?
  {
    assert StageError(o, Pipeline[0]).None? && StageError(o, Pipeline[1]).None?;
    assert StageError(o, Pipeline[2]).None? && StageError(o, Pipeline[3]).Some?;
  }

  /** A failed upload (Start or Wait) ends the run with "upload failed: " after the upload alone. */
  lemma UploadFailureStopsPromotion(dest: string, o: Outcomes)
    requires o.request.None? && o.pipe.None? && o.gzip.None? && o.rcat.None? && o.trailer.None?
    requires o.upload.start.Some? || o.upload.wait.Some?
    ensures var cause := if o.upload.start.Some? then o.upload.start.value else o.upload.wait.value;
      Spec(dest, o) == Run(Some(Failure(Upload, cause)),
        [Gzip, Rcat(LocalTemp), CopyTo(LocalTemp, TempDest(dest))])
      && Message(Spec(dest, o).err.value) == "upload failed: " + cause
  {
    assert StageError(o, Pipeline[0]).None? && StageError(o, Pipeline[1]).None?;
    assert StageError(o, Pipeline[2]).None? && StageError(o, Pipeline[3]).None?;
    assert StageError(o, Pipeline[4]).Some?;
  }

  /** A failed clone ends the run with "cloning failed: "; the temp object is never moved. */
  lemma CloningFailureStopsPromotion(dest: string, o: Outcomes)
    requires o.request.None? && o.pipe.None? && o.gzip.None? && o.rcat.None? && o.trailer.None?
    requires o.upload.start.None? && o.upload.wait.None?
    requires o.clone.start.Some? || o.clone.wait.Some?
    ensures var cause := if o.clone.start.Some? then o.clone.start.value else o.clone.wait.value;
      Spec(dest, o) == Run(Some(Failure(Cloning, cause)),
        [Gzip, Rcat(LocalTemp), CopyTo(LocalTemp, TempDest(dest)), CopyTo(TempDest(dest), LatestDest(dest))])
      && Message(Spec(dest, o).err.value) == "cloning failed: " + cause
  {
    assert StageError(o, Pipeline[0]).None? && StageError(o, Pipeline[1]).None?;
    assert StageError(o, Pipeline[2]).None? && StageError(o, Pipeline[3]).None?;
    assert StageError(o, Pipeline[4]).None? && StageError(o, Pipeline[5]).Some?;
  }

  /** A failed rename ends the run with "renaming failed: " after all three promotion commands. */
  lemma RenamingFailureEndsRun(dest: string, o: Outcomes)
    requires o.request.None? && o.pipe.None? && o.gzip.None? && o.rcat.None? && o.trailer.None?
    requires o.upload.start.None? && o.upload.wait.None?
    requires o.clone.start.None? && o.clone.wait.None?
    requires o.rename.start.Some? || o.rename.wait.Some?
    ensures var cause := if o.rename.start.Some? then o.rename.start.value else o.rename.wait.value;
      Spec(dest, o) == Run(Some(Failure(Renaming, cause)), FullTrace(dest))
      && Message(Spec(dest, o).err.value) == "renaming failed: " + cause
  {
    assert StageError(o, Pipeline[0]).None? && StageError(o, Pipeline[1]).None?;
    assert StageError(o, Pipeline[2]).None? && StageError(o, Pipeline[3]).None?;
    assert StageError(o, Pipeline[4]).None? && StageError(o, Pipeline[5]).None?;
    assert StageError(o, Pipeline[6]).Some?;
  }

  /**
   * A run returns nil exactly when every outcome is nil, and then it has started
   * gzip, rclone rcat and the three promotion commands in their fixed order.
   */
  lemma SucceedsIffAllSucceed(dest: string, o: Outcomes)
    ensures Spec(dest, o).err.None? <==> AllSucceed(o)
    ensures AllSucceed(o) ==>
      Spec(dest, o).trace == [Gzip, Rcat(LocalTemp), CopyTo(LocalTemp, TempDest(dest)),
                              CopyTo(TempDest(dest), LatestDest(dest)), MoveTo(TempDest(dest), dest)]
  {
    if AllSucceed(o) {
      forall j | 0 <= j < |Pipeline| ensures StageError(o, Pipeline[j]).None? {
        var s := Pipeline[j];
        match s
        case Workers => assert Arrivals(o)[0].None? && Arrivals(o)[1].None?;
        case _ =>
      }
    }
    if Spec(dest, o).err.None? {
      assert StageError(o, Pipeline[0]).None? && StageError(o, Pipeline[1]).None?;
      assert StageError(o, Pipeline[2]).None? && StageError(o, Pipeline[3]).None?;
      assert StageError(o, Pipeline[4]).None? && StageError(o, Pipeline[5]).None?;
      assert StageError(o, Pipeline[6]).None?;
      assert Arrivals(o)[0].None? && Arrivals(o)[1].None?;
    }
  }

  /**
   * For a clean destination with a parent directory that is not itself named
   * latest.xbackup.gz, the local staging file, the temp object, the alias and the
   * final destination are four different names.
   */
  lemma DestinationSetDistinct(dest: string)
    requires IsCleanNested(dest) && LastSegment(dest) != LatestName
    ensures var tmp, latest := TempDest(dest), LatestDest(dest);
      LocalTemp != tmp && LocalTemp != latest && LocalTemp != dest
      && tmp != latest && tmp != dest && latest != dest
  {
    DestinationsDistinct(dest);
    LatestIsSibling(dest);
    CleanNestedShape(dest);
    ParentSplit(dest);
    var p := Parent(dest);
    assert LatestDest(dest)[0] == p[0] == dest[0];
    assert TempDest(dest)[0] == dest[0];
  }

  /**
   * Every stage up to the upload succeeded: the backup was fetched, both workers and the
   * trailer check passed, and the upload's Start and Wait both returned nil.
   */
  predicate UploadCompleted(o: Outcomes)
  {
    o.request.None? && o.pipe.None? && o.gzip.None? && o.rcat.None? && o.trailer.None?
    && StepError(o.upload).None?
  }

  /** A run only tries the clone (the fourth command) once the upload has completed. */
  lemma CloneNeedsCompletedUpload(dest: string, o: Outcomes)
    requires |Spec(dest, o).trace| >= 4
    ensures UploadCompleted(o)
  {
    var k := FirstFailing(o, 0);
    if k.Some? {
      assert Attempted(Pipeline[k.value]) >= 4;
      assert k.value >= 5;
    }
    assert StageError(o, Pipeline[0]).None? && StageError(o, Pipeline[1]).None?;
    assert StageError(o, Pipeline[2]).None? && StageError(o, Pipeline[3]).None?;
    assert StageError(o, Pipeline[4]).None?;
    FirstErrorOfPair(Arrivals(o)[0], Arrivals(o)[1]);
    assert Arrivals(o) == [Arrivals(o)[0], Arrivals(o)[1]];
  }

  /** Which of the commands of a full run write the alias and the final destination. */
  lemma FullTraceWrites(dest: string)
    requires IsCleanNested(dest) && LastSegment(dest) != LatestName
    ensures var f := FullTrace(dest);
      forall i :: 0 <= i < |f| && Target(f[i]) == Some(dest) ==> i == 4
    ensures var f := FullTrace(dest);
      forall i :: 0 <= i < |f| && Target(f[i]) == Some(LatestDest(dest)) ==> i == 3
  {
    DestinationSetDistinct(dest);
    var f := FullTrace(dest);
    assert Target(f[0]) == None && Target(f[1]) == Some(LocalTemp);
    assert Target(f[2]) == Some(TempDest(dest)) && Target(f[3]) == Some(LatestDest(dest));
    assert Target(f[4]) == Some(dest);
    forall i | 0 <= i < |f| && Target(f[i]) == Some(dest) ensures i == 4 {
      assert i == 0 || i == 1 || i == 2 || i == 3 || i == 4;
    }
    forall i | 0 <= i < |f| && Target(f[i]) == Some(LatestDest(dest)) ensures i == 3 {
      assert i == 0 || i == 1 || i == 2 || i == 3 || i == 4;
    }
  }

  /**
   * Under the same condition, the final destination is only ever written by moving the
   * temp object, and the alias is only written right after the upload to the temp
   * object. A trace that writes either of them implies that the upload, and every
   * stage before it, returned nil.
   */
  lemma FinalOnlyFromTemp(dest: string, o: Outcomes)
    requires IsCleanNested(dest) && LastSegment(dest) != LatestName
    ensures var t := Spec(dest, o).trace;
      forall i :: 0 <= i < |t| && Target(t[i]) == Some(dest) ==> i == 4 && t[i] == MoveTo(TempDest(dest), dest)
    ensures var t := Spec(dest, o).trace;
      forall i :: 0 <= i < |t| && Target(t[i]) == Some(LatestDest(dest)) ==> i == 3 && t[2] == CopyTo(LocalTemp, TempDest(dest))
    ensures var t := Spec(dest, o).trace;
      (exists i :: 0 <= i < |t| && (Target(t[i]) == Some(dest) || Target(t[i]) == Some(LatestDest(dest))))
      ==> UploadCompleted(o)
  {
    FullTraceWrites(dest);
    var t := Spec(dest, o).trace;
    if exists i :: 0 <= i < |t| && (Target(t[i]) == Some(dest) || Target(t[i]) == Some(LatestDest(dest))) {
      var i :| 0 <= i < |t| && (Target(t[i]) == Some(dest) || Target(t[i]) == Some(LatestDest(dest)));
      assert t[i] == FullTrace(dest)[i];
      CloneNeedsCompletedUpload(dest, o);
    }
    var full := FullTrace(dest);
    assert forall i :: 0 <= i < |t| ==> t[i] == full[i];
  }

  /**
   * The end-to-end case of a bucket s3://bucket/backups/db.gz: the destination is
   * normalised to s3:bucket/backups/db.gz and a successful run uploads to its ".tmp",
   * clones that to s3:bucket/backups/latest.xbackup.gz and moves it into place.
   */
  lemma BucketScenario(uri: string, o: Outcomes)
    requires uri == "s3://bucket/backups/db.gz"
    requires AllSucceed(o)
    ensures NormalizeBucketURI(uri) == "s3:bucket/backups/db.gz"
    ensures Spec(NormalizeBucketURI(uri), o) == Run(None,
      [Gzip, Rcat("/tmp/backup.gz"),
       CopyTo("/tmp/backup.gz", "s3:bucket/backups/db.gz.tmp"),
       CopyTo("s3:bucket/backups/db.gz.tmp", "s3:bucket/backups/latest.xbackup.gz"),
       MoveTo("s3:bucket/backups/db.gz.tmp", "s3:bucket/backups/db.gz")])
  {
    BucketNames(uri);
    SucceedsIffAllSucceed(NormalizeBucketURI(uri), o);
  }
}
