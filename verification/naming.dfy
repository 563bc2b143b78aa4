/**
 * Destination naming in pkg/sidecar/apptakebackup.go: the bucket URI normalisation done
 * before a backup is pushed, and the two names derived from the normalised destination.
 */
module Naming {
  import opened GoPath

  /** Base name of the "latest" alias, a sibling of the final destination. */
  const LatestName := "latest.xbackup.gz"

  /** The scheme separator "://" starts at position i of s. */
  predicate SepAt(s: string, i: nat)
  {
    i + 3 <= |s| && s[i..i + 3] == "://"
  }

  ghost predicate HasSep(s: string)
  {
    exists i: nat :: SepAt(s, i)
  }

  /**
   * strings.Replace(s, "://", ":", 1): the first "://" becomes ":". The result is either
   * s itself or two characters shorter.
   */
  function NormalizeBucketURI(s: string): (r: string)
    ensures r == s || |r| == |s| - 2
  {
    if |s| < 3 then s
    else if s[..3] == "://" then ":" + s[3..]
    else [s[0]] + NormalizeBucketURI(s[1..])
  }

  /** Shifting one character off the front moves every separator one place left. */
  lemma SepAtTail(s: string, i: nat)
    requires |s| >= 1
    ensures SepAt(s, i + 1) <==> SepAt(s[1..], i)
  {
    if i + 4 <= |s| {
      assert s[i + 1..i + 4] == s[1..][i..i + 3];
    }
  }

  /** A URI without "://" is left unchanged. */
  lemma {:induction false} NormalizeWithoutSep(s: string)
    requires !HasSep(s)
    ensures NormalizeBucketURI(s) == s
    decreases |s|
  {
    if |s| >= 3 {
      assert !SepAt(s, 0);
      forall i: nat ensures !SepAt(s[1..], i) {
        SepAtTail(s, i);
      }
      NormalizeWithoutSep(s[1..]);
    }
  }

  /** Where s does not start with "://", its first character is kept and the rest normalised. */
  lemma NormalizeHead(s: string)
    requires |s| >= 3 && !SepAt(s, 0)
    ensures NormalizeBucketURI(s) == [s[0]] + NormalizeBucketURI(s[1..])
  {
  }

  /**
   * When the first "://" of s starts at i, the result is the text before it, ":",
   * and the text after it.
   */
  lemma {:induction false} NormalizeAtFirstSep(s: string, i: nat)
    requires SepAt(s, i)
    requires forall j: nat :: j < i ==> !SepAt(s, j)
    ensures NormalizeBucketURI(s) == s[..i] + ":" + s[i + 3..]
    ensures |NormalizeBucketURI(s)| == |s| - 2
    decreases i
  {
    if i == 0 {
      assert s[..0] == [];
    } else {
      var t := s[1..];
      forall j: nat | j < i - 1 ensures !SepAt(t, j) {
        SepAtTail(s, j);
      }
      SepAtTail(s, i - 1);
      NormalizeAtFirstSep(t, i - 1);
      NormalizeHead(s);
      assert t[..i - 1] == s[1..i];
      assert t[i + 2..] == s[i + 3..];
      assert [s[0]] + s[1..i] == s[..i];
    }
  }

  /** A scheme followed by "://": the separator collapses to ":". */
  lemma NormalizeScheme(scheme: string, rest: string)
    requires ':' !in scheme
    ensures NormalizeBucketURI(scheme + "://" + rest) == scheme + ":" + rest
  {
    var s := scheme + "://" + rest;
    var i := |scheme|;
    assert s[i..i + 3] == "://";
    forall j: nat | j < i ensures !SepAt(s, j) {
      assert s[j] == scheme[j] != ':';
    }
    NormalizeAtFirstSep(s, i);
    assert s[..i] == scheme && s[i + 3..] == rest;
  }

  /** Normalising removes exactly two characters when "://" occurs and none otherwise. */
  lemma {:induction false} NormalizeLength(s: string)
    ensures |NormalizeBucketURI(s)| == if HasSep(s) then |s| - 2 else |s|
    decreases |s|
  {
    if |s| < 3 {
      assert !HasSep(s);
    } else if s[..3] == "://" {
      assert SepAt(s, 0);
    } else {
      assert !SepAt(s, 0);
      NormalizeLength(s[1..]);
      if HasSep(s) {
        var i: nat :| SepAt(s, i);
        SepAtTail(s, i - 1);
      }
      if HasSep(s[1..]) {
        var i: nat :| SepAt(s[1..], i);
        SepAtTail(s, i);
      }
    }
  }

  /** Normalisation is not idempotent: a second pass can find a new "://". */
  lemma NormalizeNotIdempotent()
    ensures NormalizeBucketURI("a:////b") == "a://b"
    ensures NormalizeBucketURI(NormalizeBucketURI("a:////b")) == "a:b"
  {
    var s := "a:////b";
    assert SepAt(s, 1);
    assert s[0..3][0] == 'a';
    NormalizeAtFirstSep(s, 1);
    assert s[..1] + ":" + s[4..] == "a://b";
    var t := "a://b";
    assert SepAt(t, 1);
    assert t[0..3][0] == 'a';
    NormalizeAtFirstSep(t, 1);
    assert t[..1] + ":" + t[4..] == "a:b";
  }

  /** The name the backup is uploaded under before it is promoted: the destination plus ".tmp". */
  function TempDest(dest: string): (r: string)
    ensures |r| == |dest| + 4 && r[..|dest|] == dest && r != dest
  {
    dest + ".tmp"
  }

  /**
   * The "latest" alias: filepath.Join(dest, "../latest.xbackup.gz"). Whatever the
   * destination, the alias's last segment is latest.xbackup.gz.
   */
  function LatestDest(dest: string): (r: string)
    ensures LastSegment(r) == LatestName
  {
    JoinKeepsLastSegment(dest, LatestName);
    Join(dest, "../" + LatestName)
  }

  /**
   * For a clean destination with a parent directory, the alias is the sibling
   * latest.xbackup.gz in that same directory.
   */
  lemma LatestIsSibling(dest: string)
    requires IsCleanNested(dest)
    ensures LatestDest(dest) == Parent(dest) + "/" + LatestName
    ensures Parent(LatestDest(dest)) == Parent(dest)
    ensures LastSegment(LatestDest(dest)) == LatestName
  {
    JoinSibling(dest, LatestName);
    SegmentsOfSnoc(Parent(dest), LatestName);
  }

  /** A destination without a '/' loses everything, scheme included: the alias is bare. */
  lemma LatestOfSingleSegment(dest: string)
    requires '/' !in dest && IsNormal(dest)
    ensures LatestDest(dest) == LatestName
  {
    JoinSiblingOfSingle(dest, LatestName);
  }

  /**
   * The temp object never coincides with the alias, and the alias coincides with the
   * final destination exactly when the destination is itself named latest.xbackup.gz.
   */
  lemma DestinationsDistinct(dest: string)
    requires IsCleanNested(dest)
    ensures TempDest(dest) != LatestDest(dest)
    ensures LatestDest(dest) == dest <==> LastSegment(dest) == LatestName
  {
    LatestIsSibling(dest);
    var t, l := TempDest(dest), LatestDest(dest);
    assert t[|t| - 1] == 'p';
    assert l[|l| - 1] == 'z';
    CleanNestedShape(dest);
    ParentSplit(dest);
  }

  /** s3://bucket/backups/db.gz normalises to s3:bucket/backups/db.gz. */
  lemma NormalizeS3Bucket(uri: string)
    requires uri == "s3://bucket/backups/db.gz"
    ensures NormalizeBucketURI(uri) == "s3:bucket/backups/db.gz"
  {
    assert uri == "s3" + "://" + "bucket/backups/db.gz";
    assert "s3:bucket/backups/db.gz" == "s3" + ":" + "bucket/backups/db.gz";
    NormalizeScheme("s3", "bucket/backups/db.gz");
  }

  /** s3:bucket/backups/db.gz is a clean path whose parent is s3:bucket/backups. */
  lemma S3BucketIsCleanNested(dest: string)
    requires dest == "s3:bucket/backups/db.gz"
    ensures IsCleanNested(dest)
    ensures Parent(dest) == "s3:bucket/backups"
  {
    assert dest == "s3:bucket" + "/" + "backups" + "/" + "db.gz";
    assert '/' !in "s3:bucket" && '/' !in "backups" && '/' !in "db.gz";
    ThreeSegments("s3:bucket", "backups", "db.gz");
  }

  /** The temp object and the alias of s3:bucket/backups/db.gz. */
  lemma S3BucketNames(dest: string)
    requires dest == "s3:bucket/backups/db.gz"
    ensures TempDest(dest) == "s3:bucket/backups/db.gz.tmp"
    ensures LatestDest(dest) == "s3:bucket/backups/latest.xbackup.gz"
  {
    S3BucketIsCleanNested(dest);
    LatestIsSibling(dest);
  }

  /**
   * The names derived from the bucket s3://bucket/backups/db.gz: the alias lands next
   * to db.gz in backups/, not at the top of the bucket.
   */
  lemma BucketNames(uri: string)
    requires uri == "s3://bucket/backups/db.gz"
    ensures NormalizeBucketURI(uri) == "s3:bucket/backups/db.gz"
    ensures TempDest(NormalizeBucketURI(uri)) == "s3:bucket/backups/db.gz.tmp"
    ensures LatestDest(NormalizeBucketURI(uri)) == "s3:bucket/backups/latest.xbackup.gz"
  {
    NormalizeS3Bucket(uri);
    S3BucketNames(NormalizeBucketURI(uri));
  }
}
