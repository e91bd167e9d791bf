/** drop_videos_cache: evict the page cache of video files one by one,
    stopping at the first file that fails. The operating system calls of
    _drop_single_video_cache (os.open, fstat, posix_fadvise, close) are an
    oracle reporting how they ended for a path. */
module DropCache {

  /** DropCacheStatus and its values. */
  datatype DropCacheStatus = Success | PlatformError | FadviseFailed | UnknownError

  function Value(s: DropCacheStatus): (v: int)
    ensures 0 <= v <= 3
    ensures v == 0 <==> s == Success
  {
    match s
    case Success => 0
    case PlatformError => 1
    case FadviseFailed => 2
    case UnknownError => 3
  }

  /** How the system calls for one path ended: all returned, an OSError
      (IOError is the same class), or any other exception. */
  datatype SysOutcome = Dropped | OsError | OtherException

  /** _drop_single_video_cache: PLATFORM_ERROR off Linux, else the status
      matching how the calls ended. */
  function DropSingle(isLinux: bool, sys: string -> SysOutcome, path: string): (s: DropCacheStatus)
    ensures !isLinux ==> s == PlatformError
    ensures isLinux ==> (s == Success <==> sys(path) == Dropped)
    ensures isLinux ==> (s == FadviseFailed <==> sys(path) == OsError)
    ensures isLinux ==> (s == UnknownError <==> sys(path) == OtherException)
  {
    if !isLinux then PlatformError
    else
      match sys(path)
      case Dropped => Success
      case OsError => FadviseFailed
      case OtherException => UnknownError
  }

  /** The reference fold: the status of the first file that does not
      succeed, or SUCCESS. */
  function FirstFailure(isLinux: bool, sys: string -> SysOutcome, paths: seq<string>): (s: DropCacheStatus)
    decreases |paths|
  {
    if |paths| == 0 then Success
    else
      var s := DropSingle(isLinux, sys, paths[0]);
      if s != Success then s else FirstFailure(isLinux, sys, paths[1..])
  }

  /** drop_videos_cache with the status the docstring promises: the loop
      visits files in order and stops at the first failure. `attempted` is
      how many files were handed to the system. */
  method DropVideosCache(isLinux: bool, sys: string -> SysOutcome, paths: seq<string>)
    returns (status: DropCacheStatus, attempted: nat)
    ensures status == FirstFailure(isLinux, sys, paths)
    ensures attempted <= |paths|
    ensures forall i :: 0 <= i < attempted - 1 ==> DropSingle(isLinux, sys, paths[i]) == Success
    ensures status == Success ==> attempted == |paths|
    ensures status != Success ==> attempted > 0 && DropSingle(isLinux, sys, paths[attempted - 1]) == status
  {
    var i := 0;
    while i < |paths|
      invariant 0 <= i <= |paths|
      invariant forall j :: 0 <= j < i ==> DropSingle(isLinux, sys, paths[j]) == Success
      invariant FirstFailure(isLinux, sys, paths) == FirstFailure(isLinux, sys, paths[i..])
    {
      var s := DropSingle(isLinux, sys, paths[i]);
      assert paths[i..][1..] == paths[i + 1..];
      if s != Success {
        return s, i + 1;
      }
      i := i + 1;
    }
    return Success, |paths|;
  }

  /** What a Python call hands back: an enum member or a plain int. An Enum
      member never compares equal to an int. */
  datatype PyValue = Member(status: DropCacheStatus) | IntValue(v: int)

  /** drop_videos_cache as written: a failure returns `status.value`, the
      int, while success returns the enum member. */
  function DropVideosCacheAsWritten(isLinux: bool, sys: string -> SysOutcome, paths: seq<string>): (r: PyValue)
    ensures var s := FirstFailure(isLinux, sys, paths);
            r == if s == Success then Member(Success) else IntValue(Value(s))
    decreases |paths|
  {
    if |paths| == 0 then Member(Success)
    else
      var s := DropSingle(isLinux, sys, paths[0]);
      if s != Success then IntValue(Value(s)) else DropVideosCacheAsWritten(isLinux, sys, paths[1..])
  }

  /** An empty list succeeds. */
  lemma EmptyListSucceeds(isLinux: bool, sys: string -> SysOutcome)
    ensures FirstFailure(isLinux, sys, []) == Success
  {
  }

  /** The fold succeeds exactly when every file does, and otherwise returns
      the status of the earliest failing file. */
  lemma {:induction false} FirstFailureCharacterized(isLinux: bool, sys: string -> SysOutcome, paths: seq<string>)
    ensures var s := FirstFailure(isLinux, sys, paths);
            (s == Success <==> forall i :: 0 <= i < |paths| ==> DropSingle(isLinux, sys, paths[i]) == Success) &&
            (s != Success ==> exists k :: 0 <= k < |paths| && DropSingle(isLinux, sys, paths[k]) == s &&
                                          forall i :: 0 <= i < k ==> DropSingle(isLinux, sys, paths[i]) == Success)
    decreases |paths|
  {
    if |paths| > 0 {
      FirstFailureCharacterized(isLinux, sys, paths[1..]);
      var s := FirstFailure(isLinux, sys, paths);
      if DropSingle(isLinux, sys, paths[0]) == Success {
        if s != Success {
          var k :| 0 <= k < |paths[1..]| && DropSingle(isLinux, sys, paths[1..][k]) == s &&
                   forall i :: 0 <= i < k ==> DropSingle(isLinux, sys, paths[1..][i]) == Success;
          assert DropSingle(isLinux, sys, paths[k + 1]) == s;
          forall i | 0 <= i < k + 1 ensures DropSingle(isLinux, sys, paths[i]) == Success {
            if i > 0 {
              assert paths[i] == paths[1..][i - 1];
            }
          }
        } else {
          forall i | 0 <= i < |paths| ensures DropSingle(isLinux, sys, paths[i]) == Success {
            if i > 0 {
              assert paths[i] == paths[1..][i - 1];
            }
          }
        }
      }
    }
  }

  /** Fail-fast: once a prefix of the list fails, nothing after it is
      looked at, so appending files does not change the status. */
  lemma {:induction false} FailFast(isLinux: bool, sys: string -> SysOutcome, paths: seq<string>, rest: seq<string>)
    requires FirstFailure(isLinux, sys, paths) != Success
    ensures FirstFailure(isLinux, sys, paths + rest) == FirstFailure(isLinux, sys, paths)
    decreases |paths|
  {
    assert |paths| > 0;
    if DropSingle(isLinux, sys, paths[0]) == Success {
      assert (paths + rest)[1..] == paths[1..] + rest;
      FailFast(isLinux, sys, paths[1..], rest);
    }
  }

  /** Off Linux every non-empty list reports PLATFORM_ERROR. */
  lemma OffLinuxPlatformError(sys: string -> SysOutcome, paths: seq<string>)
    requires |paths| > 0
    ensures FirstFailure(false, sys, paths) == PlatformError
  {
  }

  /** A system whose calls fail for paths under /nonexistent. */
  function MissingFiles(): string -> SysOutcome {
    p => if |p| >= 12 && p[..12] == "/nonexistent" then OsError else Dropped
  }

  /** The discrepancy: on Linux, a list holding a missing file makes the
      as-written function return the int 2, which does not compare equal to
      DropCacheStatus.FADVISE_FAILED; the corrected fold returns the member. */
  lemma FailureReturnsInt()
    ensures DropVideosCacheAsWritten(true, MissingFiles(), ["/nonexistent/video.mp4"]) == IntValue(2)
    ensures DropVideosCacheAsWritten(true, MissingFiles(), ["/nonexistent/video.mp4"]) != Member(FadviseFailed)
    ensures FirstFailure(true, MissingFiles(), ["/nonexistent/video.mp4"]) == FadviseFailed
  {
    assert "/nonexistent/video.mp4"[..12] == "/nonexistent";
  }
}
