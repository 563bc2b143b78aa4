# Take-backup sidecar: destination naming and promotion sequence

This project is a Dafny model of the backup push performed by the MySQL operator's
sidecar (`pkg/sidecar/apptakebackup.go`). A backup is pulled from a server and piped
through `gzip` into `rclone rcat`, which writes a local staging file. The two worker
results are joined, the response trailers are checked, and the file is then promoted
in three rclone steps:

1. `copyto` from the local file to the temp object `D.tmp`;
2. `copyto` from `D.tmp` to the alias `latest.xbackup.gz` next to `D`;
3. `moveto` from `D.tmp` to the final destination `D`.

Here `D` is the bucket URI after its first `://` has been collapsed to `:`.

Modules:

- `Wrappers`: `Option`, which plays the part of Go's nil-or-error.
- `GoPath`: the part of Go's `path/filepath` the code relies on, for `/`-separated
  paths. This covers splitting at `/`, the lexical `Clean` (the segment walk that
  drops empty and `.` segments and lets `..` cancel the segment before it) and
  two-element `Join`. `Join(D, "../x")` is proved to be the sibling `x` of `D` when `D`
  is a clean path with a parent directory.
- `Naming`: `normalizeBucketURI` and the two derived names, with the properties of each.
- `TakeBackup`: `pushBackupFromTo` and `RunTakeBackupCommand` as methods. Every external
  effect is an input record (`Outcomes`):
  - the request error;
  - the `StdoutPipe` error;
  - the exit errors of `gzip` and `rclone rcat`, plus which of them reaches the channel first;
  - the trailer-check error;
  - the `Start` and `Wait` errors of each promotion command.

  A run returns its error (`None` for nil) and the ordered trace of the commands it
  tried to start. The method is proved equal to `Spec`, a stage-table definition: the
  first failing stage's error wins, and the trace is the full five-command trace cut
  after the commands that stage attempted. The lemmas state the promises of the code
  against `Spec`.

## Behaviour of the code worth knowing

- Normalisation is not idempotent: `NormalizeBucketURI("a:////b")` is `"a://b"`, and
  normalising that again gives `"a:b"` (`Naming.NormalizeNotIdempotent`).
- The alias sits next to the destination, not at the top of the bucket: for
  `s3://bucket/backups/db.gz` it is `s3:bucket/backups/latest.xbackup.gz`, because
  `filepath.Join` cleans `db.gz/..` away (`Naming.BucketNames`,
  `TakeBackup.BucketScenario`).
- The join returns on the first non-nil worker result and never receives the second one
  from the channel.
- A failed trailer check returns `checkBackupTrailers`'s own error unchanged; the text
  "backup was partially taken" (line 81) is only a log line.

## Model

| member | source | states |
|---|---|---|
| `Naming.NormalizeBucketURI` | pkg/sidecar/apptakebackup.go:121-123 | the result is either the input unchanged or exactly two characters shorter |
| `Naming.NormalizeWithoutSep` | pkg/sidecar/apptakebackup.go:121-123 | a URI containing no `://` is returned unchanged |
| `Naming.NormalizeAtFirstSep` | pkg/sidecar/apptakebackup.go:121-123 | when the first `://` starts at `i`, the result is the text before it, `:`, and the text after it, and it is two characters shorter |
| `Naming.NormalizeLength` | pkg/sidecar/apptakebackup.go:121-123 | the result is exactly two characters shorter when `://` occurs anywhere, and the same length otherwise |
| `Naming.NormalizeScheme` | pkg/sidecar/apptakebackup.go:121-123 | `scheme://rest` becomes `scheme:rest` when the scheme has no `:` |
| `Naming.NormalizeNotIdempotent` | pkg/sidecar/apptakebackup.go:121-123 | normalising twice can differ from normalising once (`a:////b`, then `a://b`, then `a:b`) |
| `Naming.TempDest` | pkg/sidecar/apptakebackup.go:38 | the temp name extends the destination by four characters and never equals it |
| `Naming.LatestDest` | pkg/sidecar/apptakebackup.go:39 | whatever the destination, the alias's last path segment is `latest.xbackup.gz` |
| `Naming.LatestIsSibling` | pkg/sidecar/apptakebackup.go:39 | for a clean destination with a parent directory, the alias is `latest.xbackup.gz` in that same directory: same parent, that last segment |
| `Naming.LatestOfSingleSegment` | pkg/sidecar/apptakebackup.go:39 | a destination with no `/` yields the bare `latest.xbackup.gz`, dropping the scheme |
| `Naming.DestinationsDistinct` | pkg/sidecar/apptakebackup.go:38-39 | the temp name never equals the alias, and the alias equals the destination exactly when the destination's last segment is `latest.xbackup.gz` |
| `Naming.BucketNames` | pkg/sidecar/apptakebackup.go:28-39 | `s3://bucket/backups/db.gz` gives destination `s3:bucket/backups/db.gz`, temp `s3:bucket/backups/db.gz.tmp` and alias `s3:bucket/backups/latest.xbackup.gz` |
| `GoPath.JoinSibling` | pkg/sidecar/apptakebackup.go:39 | Go's `Join(d, "../x")` with lexical `Clean` equals `Parent(d) + "/" + x` for a clean nested `d` |
| `GoPath.JoinKeepsLastSegment` | pkg/sidecar/apptakebackup.go:39 | for every `d`, Go's `Join(d, "../x")` ends in the segment `x` |
| `TakeBackup.FirstError` | pkg/sidecar/apptakebackup.go:72-77 | the join yields nil exactly when every result in arrival order is nil |
| `TakeBackup.FirstErrorIsFirst` | pkg/sidecar/apptakebackup.go:72-77 | a non-nil verdict of the join is one of the results, and only nil results arrived before it |
| `TakeBackup.FirstErrorOfPair` | pkg/sidecar/apptakebackup.go:73-77 | over the two arrivals, the join yields the first result if it is an error and the second one otherwise |
| `TakeBackup.StepError` | pkg/sidecar/apptakebackup.go:88-94 | a Start-then-Wait step succeeds exactly when both calls return nil; a Start error is returned if there is one, otherwise the Wait error |
| `TakeBackup.Prefix` | pkg/sidecar/apptakebackup.go:43-116 | exactly the pipe, worker and trailer errors are returned without a prefix; every other stage's prefix ends in `: ` |
| `TakeBackup.FirstFailing` | pkg/sidecar/apptakebackup.go:41-118 | finds the first failing stage in pipeline order: every stage before it passed, and with no failure every stage passed |
| `TakeBackup.Spec` | pkg/sidecar/apptakebackup.go:34-119 | the reference run: its trace is always a prefix of gzip, rcat, copyto, copyto, moveto, so no later step follows a failed one; a successful run has all of it; a failure carries the cause its own stage produced |
| `TakeBackup.PushBackupFromTo` | pkg/sidecar/apptakebackup.go:34-119 | the imperative run, with early returns and the two-iteration drain loop, returns exactly the error and trace of `Spec` |
| `TakeBackup.RunTakeBackupCommand` | pkg/sidecar/apptakebackup.go:28-32 | the command pushes to the normalised bucket URI: its run is `Spec` of the normalised destination |
| `TakeBackup.FirstFailureWins` | pkg/sidecar/apptakebackup.go:41-116 | a failed run's error names a stage that failed with exactly that cause; every earlier stage passed; the trace ends with that stage's commands |
| `TakeBackup.RequestFailureStartsNothing` | pkg/sidecar/apptakebackup.go:41-44 | a failed request returns `getting backup: <cause>` with an empty trace |
| `TakeBackup.WorkerFailureStopsRun` | pkg/sidecar/apptakebackup.go:60-77 | if either worker fails, the run returns the first non-nil result in arrival order, unwrapped, and has tried only gzip and rcat |
| `TakeBackup.GzipFailureFailsRun` | pkg/sidecar/apptakebackup.go:60-77 | a failing gzip fails the run even when rcat exits cleanly, in either arrival order |
| `TakeBackup.TrailerFailureBlocksPromotion` | pkg/sidecar/apptakebackup.go:79-83 | a trailer failure after both workers succeed returns that error, and the trace holds no copyto or moveto |
| `TakeBackup.UploadFailureStopsPromotion` | pkg/sidecar/apptakebackup.go:86-94 | a failed upload Start or Wait returns `upload failed: <cause>`; the last command is the upload to the temp name |
| `TakeBackup.CloningFailureStopsPromotion` | pkg/sidecar/apptakebackup.go:97-105 | a failed clone returns `cloning failed: <cause>`; the last command is the clone from temp to alias, and no moveto is issued |
| `TakeBackup.RenamingFailureEndsRun` | pkg/sidecar/apptakebackup.go:108-116 | a failed rename returns `renaming failed: <cause>` after all three promotion commands |
| `TakeBackup.SucceedsIffAllSucceed` | pkg/sidecar/apptakebackup.go:85-118 | the run returns nil exactly when every outcome is nil; the trace is then gzip, rcat, `copyto local tmp`, `copyto tmp latest`, `moveto tmp final` |
| `TakeBackup.DestinationSetDistinct` | pkg/sidecar/apptakebackup.go:36-39 | for a clean nested destination not itself named `latest.xbackup.gz`, the staging file, temp, alias and final names are pairwise different |
| `TakeBackup.FinalOnlyFromTemp` | pkg/sidecar/apptakebackup.go:86-116 | under that condition, only the `moveto` from the temp name writes the final destination, and the alias is written only right after the upload; a trace that touches the alias or the final name implies the upload's Start and Wait and every earlier stage succeeded |
| `TakeBackup.CloneNeedsCompletedUpload` | pkg/sidecar/apptakebackup.go:79-97 | the clone is only tried after the request, both workers, the trailer check and the upload's Start and Wait have all returned nil |
| `TakeBackup.BucketScenario` | pkg/sidecar/apptakebackup.go:28-118 | a fully successful run for `s3://bucket/backups/db.gz` issues exactly the five commands with their concrete names and returns nil |

## Left out

- A command is recorded in the trace when the run tries to start it, before its `Start`
  result is read. A command whose `Start` fails, or a worker whose `Run` fails to start,
  is therefore in the trace although the process never ran.
- Launching processes, the stdin/stdout pipe between gzip and rclone, and forwarding
  stderr (lines 47-58). These are OS I/O. Only their error results are inputs.
- The goroutines and the buffered channel (lines 60-70). The arrival order of the two
  worker results is an input flag. The trace lists gzip before rclone rcat although the
  two run concurrently.
- `requestABackup`, `checkBackupTrailers`, `Config.RcloneArgs`, `serverBackupEndpoint`
  and `log` are not part of this model. Their results are inputs (request error,
  trailer-check error). The configured rclone arguments are not recorded in `Command`.
  The fail-closed handling of an empty trailer map lives in `checkBackupTrailers` and is
  not modelled.
- The contents of `/tmp/backup.gz` and of the remote objects are not modelled. The
  staging path appears only as a name.
- Go's error values are reduced to their message text. A wrapped error is its stage's
  prefix followed by the cause's text.
- `GoPath.Clean` covers `/`-separated paths only, not other platforms' separators or
  volume names. Its result is characterised only for clean nested destinations
  (`GoPath.JoinSibling`) and single-segment destinations (`GoPath.JoinSiblingOfSingle`).
- `TakeBackup.FinalOnlyFromTemp` requires the destination's last segment to differ from
  `latest.xbackup.gz`. Without that, the clone step writes the final name directly
  (`Naming.DestinationsDistinct`).
