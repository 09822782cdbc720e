/**
 * The log tailer `track_logstream`: one loop over the reads of an open log
 * file. It keeps the text read so far in `content` and a count of empty
 * reads in `empty`. Every `MAX_EMPTY_BEFORE_CLOSE`-th empty read triggers a
 * check: the tailer reopens the file when its on-disk contents differ from
 * `content`, and otherwise resets `empty` to 0. Every read, empty or not, is
 * then handed to `handle_log`.
 *
 * The file is a finite sequence of reads. Each read carries the line, the
 * whole on-disk text at that moment (what `new_logfile_created` compares, or
 * None when `LOG_PATH` cannot be opened then) and the service's replies while
 * the line is handled. The specification
 * functions below describe the first `i` reads of such a feed.
 */
module Tailer {
  import opened Wrappers
  import opened Sessions
  import opened Classifier
  import opened Reconciler

  const MAX_EMPTY_BEFORE_CLOSE := 10

  /** One `s.readline() or ""`, with what the world looks like while it is handled. */
  datatype Read = Read(line: string, disk: Option<string>, env: Env)

  /** The first `i` lines read, concatenated; empty reads add nothing, and the text only ever grows. */
  function Content(feed: seq<Read>, i: nat): (c: string)
    requires i <= |feed|
    ensures forall j :: 0 <= j <= i ==> Content(feed, j) <= c
  {
    if i == 0 then "" else Content(feed, i - 1) + feed[i - 1].line
  }

  /** How many of the first `i` reads came back empty. */
  function EmptyReads(feed: seq<Read>, i: nat): (n: nat)
    requires i <= |feed|
    ensures n <= i
  {
    if i == 0 then 0 else EmptyReads(feed, i - 1) + (if feed[i - 1].line == "" then 1 else 0)
  }

  /**
   * `new_logfile_created(content)`: whether the file on disk is no longer what
   * was read through the handle, or None where `open(LOG_PATH)` raises
   * FileNotFoundError, which nothing catches.
   */
  function NewLogfileCreated(disk: Option<string>, content: string): (created: Option<bool>)
    ensures created.None? <==> disk.None?
    ensures created == Some(false) <==> disk == Some(content)
  {
    match disk
    case None => None
    case Some(text) => Some(text != content)
  }

  /**
   * The value of `empty` at the loop head after `i` reads, stepped exactly as
   * the code does: an empty read adds one, a line leaves it alone, reaching
   * the threshold (with no rotation) resets it to 0.
   */
  function Counter(feed: seq<Read>, i: nat): (c: nat)
    requires i <= |feed|
    ensures c < MAX_EMPTY_BEFORE_CLOSE
  {
    if i == 0 then 0
    else
      var c := Counter(feed, i - 1) + (if feed[i - 1].line == "" then 1 else 0);
      if c >= MAX_EMPTY_BEFORE_CLOSE then 0 else c
  }

  /** Read `j` brings `empty` up to the threshold, so the tailer compares the file on disk. */
  predicate IsCheck(feed: seq<Read>, j: nat)
    requires j < |feed|
  {
    feed[j].line == "" && Counter(feed, j) + 1 >= MAX_EMPTY_BEFORE_CLOSE
  }

  /** The check at read `j` finds a different file and the loop breaks to reopen it. */
  predicate Rotates(feed: seq<Read>, j: nat)
    requires j < |feed|
  {
    IsCheck(feed, j) && NewLogfileCreated(feed[j].disk, Content(feed, j + 1)) == Some(true)
  }

  /** The loop breaks to reopen exactly when a check opens the file and finds other text than `content`. */
  lemma RotatesIff(feed: seq<Read>, j: nat)
    requires j < |feed|
    ensures Rotates(feed, j) <==> IsCheck(feed, j) && feed[j].disk.Some? && feed[j].disk.value != Content(feed, j + 1)
  {
  }

  /** The check at read `j` cannot open the file, and the exception ends the tailer. */
  predicate CheckFails(feed: seq<Read>, j: nat)
    requires j < |feed|
  {
    IsCheck(feed, j) && feed[j].disk.None?
  }

  /** Read `j` ends the loop before `handle_log` sees it. */
  predicate Breaks(feed: seq<Read>, j: nat)
    requires j < |feed|
  {
    Rotates(feed, j) || CheckFails(feed, j)
  }

  /** `handle_log` on one read. */
  function Handle(st: StoreState, r: Read): (StoreState, Status)
  {
    LineEffect(st, r.line, r.env)
  }

  /**
   * The first `i` reads handed to a line handler in order: the store
   * afterwards, and whether every one of them was handled, with no check
   * breaking the loop, and left the tailer running. The loop's own lemmas
   * hold for every handler.
   */
  function RunWith(handle: (StoreState, Read) -> (StoreState, Status), st: StoreState, feed: seq<Read>, i: nat): (StoreState, bool)
    requires i <= |feed|
  {
    if i == 0 then (st, true)
    else
      var prev := RunWith(handle, st, feed, i - 1);
      var next := handle(prev.0, feed[i - 1]);
      (next.0, prev.1 && !Breaks(feed, i - 1) && next.1 == Continue)
  }

  /** The first `i` reads handed to `handle_log` in order. */
  function Run(st: StoreState, feed: seq<Read>, i: nat): (StoreState, bool)
    requires i <= |feed|
  {
    RunWith(Handle, st, feed, i)
  }

  /** The store after `handle_log` has run on the first `i` reads. */
  function Replay(st: StoreState, feed: seq<Read>, i: nat): StoreState
    requires i <= |feed|
  {
    Run(st, feed, i).0
  }

  /** How the tailer goes on after `handle_log` has run on read `j`. */
  function StatusAt(st: StoreState, feed: seq<Read>, j: nat): Status
    requires j < |feed|
  {
    Handle(Replay(st, feed, j), feed[j]).1
  }

  /** None of the first `i` reads broke the loop at a check or stopped the tailer. */
  predicate Quiet(st: StoreState, feed: seq<Read>, i: nat)
    requires i <= |feed|
  {
    Run(st, feed, i).1
  }

  /** For any handler, a prefix that kept the loop going stays so when it is cut shorter. */
  lemma {:induction false} RunWithShorter(handle: (StoreState, Read) -> (StoreState, Status), st: StoreState, feed: seq<Read>, i: nat, k: nat)
    requires k <= i <= |feed| && RunWith(handle, st, feed, i).1
    ensures RunWith(handle, st, feed, k).1
    decreases i
  {
    if k < i {
      RunWithShorter(handle, st, feed, i - 1, k);
    }
  }

  /** For any handler, the last read of such a prefix was handled, did not break the loop, and kept the tailer going. */
  lemma RunWithLast(handle: (StoreState, Read) -> (StoreState, Status), st: StoreState, feed: seq<Read>, j: nat)
    requires j < |feed| && RunWith(handle, st, feed, j + 1).1
    ensures RunWith(handle, st, feed, j).1 && !Breaks(feed, j)
    ensures handle(RunWith(handle, st, feed, j).0, feed[j]).1 == Continue
  {
  }

  /**
   * In a prefix that kept the loop going every read was handled, no check
   * broke the loop, and the tailer went on; for `Handle` this is `Quiet`.
   */
  lemma QuietPrefix(handle: (StoreState, Read) -> (StoreState, Status), st: StoreState, feed: seq<Read>, i: nat, j: nat)
    requires i <= |feed|
    requires RunWith(handle, st, feed, i).1 && j < i
    ensures !Breaks(feed, j) && handle(RunWith(handle, st, feed, j).0, feed[j]).1 == Continue
  {
    RunWithShorter(handle, st, feed, i, j + 1);
    RunWithLast(handle, st, feed, j);
  }

  // ----- the loop as the code steps it -----

  /**
   * The stepped counter is the number of empty reads modulo the threshold, so
   * `empty < MAX_EMPTY_BEFORE_CLOSE` at every loop head, and the checks fall
   * exactly on every `MAX_EMPTY_BEFORE_CLOSE`-th empty read, lines between
   * them or not.
   */
  lemma {:induction false} CounterIsEmptyReadsMod(feed: seq<Read>, i: nat)
    requires i <= |feed|
    ensures Counter(feed, i) == EmptyReads(feed, i) % MAX_EMPTY_BEFORE_CLOSE
    ensures Counter(feed, i) < MAX_EMPTY_BEFORE_CLOSE
    ensures i < |feed| ==> (IsCheck(feed, i) <==> feed[i].line == "" && EmptyReads(feed, i + 1) % MAX_EMPTY_BEFORE_CLOSE == 0)
  {
    if i > 0 {
      CounterIsEmptyReadsMod(feed, i - 1);
    }
  }

  /** A run of empty reads counts every one of them. */
  lemma {:induction false} AllEmptyCount(feed: seq<Read>, i: nat)
    requires i <= |feed|
    requires forall j :: 0 <= j < i ==> feed[j].line == ""
    ensures EmptyReads(feed, i) == i
  {
    if i > 0 {
      AllEmptyCount(feed, i - 1);
    }
  }

  /** A non-empty line never resets the count: after nine empty reads and a line, the next empty read is a check. */
  lemma LineDoesNotResetCount(feed: seq<Read>)
    requires |feed| >= 11
    requires forall j :: 0 <= j < 9 ==> feed[j].line == ""
    requires feed[9].line != "" && feed[10].line == ""
    ensures !IsCheck(feed, 8) && IsCheck(feed, 10)
  {
    AllEmptyCount(feed, 9);
    AllEmptyCount(feed, 8);
    assert EmptyReads(feed, 10) == 9;
    CounterIsEmptyReadsMod(feed, 8);
    CounterIsEmptyReadsMod(feed, 10);
  }

  /** A file that only yields lines the dispatch ignores leaves the store alone and the tailer running. */
  lemma {:induction false} IgnoredReadsChangeNothing(st: StoreState, feed: seq<Read>, i: nat)
    requires i <= |feed|
    requires forall j :: 0 <= j < i ==> Classify(feed[j].line) == Ignore
    ensures Replay(st, feed, i) == st
    ensures forall j :: 0 <= j < i ==> StatusAt(st, feed, j) == Continue
  {
    if i > 0 {
      IgnoredReadsChangeNothing(st, feed, i - 1);
      IgnoredLineChangesNothing(st, feed[i - 1].line, feed[i - 1].env);
    }
  }

  // ----- the loop itself -----

  /** One read moves `empty` on; it reaches the threshold exactly at a check. */
  lemma CounterStep(feed: seq<Read>, i: nat)
    requires i < |feed|
    ensures var e := Counter(feed, i) + (if feed[i].line == "" then 1 else 0);
      (e >= MAX_EMPTY_BEFORE_CLOSE <==> IsCheck(feed, i))
      && Counter(feed, i + 1) == (if e >= MAX_EMPTY_BEFORE_CLOSE then 0 else e)
  {
  }

  /** A read that does not break the loop and keeps the tailer going extends the quiet prefix. */
  lemma QuietStep(st0: StoreState, feed: seq<Read>, i: nat, st: StoreState, status: Status)
    requires i < |feed| && Quiet(st0, feed, i) && !Breaks(feed, i)
    requires (st, status) == LineEffect(Replay(st0, feed, i), feed[i].line, feed[i].env)
    ensures st == Replay(st0, feed, i + 1) && status == StatusAt(st0, feed, i)
    ensures status == Continue ==> Quiet(st0, feed, i + 1)
  {
  }

  /** How a run of the loop ends, and at which read. */
  datatype Outcome = Reopened(at: nat) | OpenFailed(at: nat) | Exited(at: nat) | Crashed(at: nat) | Drained

  /**
   * How a run that started on store `st0` may end: with the file reopened at a
   * rotating check, or with FileNotFoundError at a check that cannot open the
   * file (in both cases the read that triggered the check is not handed to
   * `handle_log`), with a line that exits or crashes, or with every read
   * handled.
   */
  predicate Ends(st0: StoreState, feed: seq<Read>, outcome: Outcome, st: StoreState, content: string, empty: nat)
  {
    match outcome
    case Reopened(j) =>
      j < |feed| && Quiet(st0, feed, j) && Rotates(feed, j) && st == Replay(st0, feed, j)
      && content == Content(feed, j + 1) && empty == MAX_EMPTY_BEFORE_CLOSE
    case OpenFailed(j) =>
      j < |feed| && Quiet(st0, feed, j) && CheckFails(feed, j) && st == Replay(st0, feed, j)
      && content == Content(feed, j + 1) && empty == MAX_EMPTY_BEFORE_CLOSE
    case Exited(j) =>
      j < |feed| && Quiet(st0, feed, j) && !Breaks(feed, j) && StatusAt(st0, feed, j) == Exit
      && st == Replay(st0, feed, j + 1)
      && content == Content(feed, j + 1) && empty == Counter(feed, j + 1)
    case Crashed(j) =>
      j < |feed| && Quiet(st0, feed, j) && !Breaks(feed, j) && StatusAt(st0, feed, j) == Crash
      && st == Replay(st0, feed, j + 1)
      && content == Content(feed, j + 1) && empty == Counter(feed, j + 1)
    case Drained =>
      Quiet(st0, feed, |feed|) && st == Replay(st0, feed, |feed|)
      && content == Content(feed, |feed|) && empty == Counter(feed, |feed|)
  }

  lemma EndsReopened(st0: StoreState, feed: seq<Read>, i: nat, st: StoreState, content: string)
    requires i < |feed| && Quiet(st0, feed, i) && Rotates(feed, i)
    requires st == Replay(st0, feed, i) && content == Content(feed, i + 1)
    ensures Ends(st0, feed, Reopened(i), st, content, MAX_EMPTY_BEFORE_CLOSE)
  {
  }

  lemma EndsOpenFailed(st0: StoreState, feed: seq<Read>, i: nat, st: StoreState, content: string)
    requires i < |feed| && Quiet(st0, feed, i) && CheckFails(feed, i)
    requires st == Replay(st0, feed, i) && content == Content(feed, i + 1)
    ensures Ends(st0, feed, OpenFailed(i), st, content, MAX_EMPTY_BEFORE_CLOSE)
  {
  }

  lemma EndsStopped(st0: StoreState, feed: seq<Read>, i: nat, st: StoreState, content: string, empty: nat, status: Status)
    requires i < |feed| && Quiet(st0, feed, i) && !Breaks(feed, i)
    requires status == StatusAt(st0, feed, i) && status != Continue
    requires st == Replay(st0, feed, i + 1) && content == Content(feed, i + 1) && empty == Counter(feed, i + 1)
    ensures Ends(st0, feed, if status == Exit then Exited(i) else Crashed(i), st, content, empty)
  {
  }

  lemma EndsDrained(st0: StoreState, feed: seq<Read>, st: StoreState, content: string, empty: nat)
    requires Quiet(st0, feed, |feed|) && st == Replay(st0, feed, |feed|)
    requires content == Content(feed, |feed|) && empty == Counter(feed, |feed|)
    ensures Ends(st0, feed, Drained, st, content, empty)
  {
  }

  /** Hand read `i` of a quiet prefix, when its check did not break the loop, to `handle_log`. */
  method HandleRead(store: Store, feed: seq<Read>, i: nat, ghost st0: StoreState) returns (status: Status)
    requires i < |feed| && Quiet(st0, feed, i) && !Breaks(feed, i)
    requires store.State() == Replay(st0, feed, i)
    modifies store
    ensures store.State() == Replay(st0, feed, i + 1) && status == StatusAt(st0, feed, i)
    ensures status == Continue ==> Quiet(st0, feed, i + 1)
  {
    status := HandleLog(store, feed[i].line, feed[i].env);
    QuietStep(st0, feed, i, store.State(), status);
  }

  /**
   * One pass of the `while True` loop of `track_logstream`: read `i`, a check
   * when the count of empty reads reaches the threshold, then `handle_log`.
   * Either the loop goes on with the state of read `i + 1`, or the run ends
   * here the way `Ends` describes.
   */
  method TrackRead(store: Store, feed: seq<Read>, i: nat, ghost st0: StoreState, content0: string, empty0: nat)
    returns (stop: Option<Outcome>, content: string, empty: nat)
    requires i < |feed| && Quiet(st0, feed, i) && store.State() == Replay(st0, feed, i)
    requires content0 == Content(feed, i) && empty0 == Counter(feed, i)
    modifies store
    ensures stop.None? ==>
      && store.State() == Replay(st0, feed, i + 1) && Quiet(st0, feed, i + 1)
      && content == Content(feed, i + 1) && empty == Counter(feed, i + 1)
    ensures stop.Some? ==> empty <= MAX_EMPTY_BEFORE_CLOSE && Ends(st0, feed, stop.value, store.State(), content, empty)
  {
    var line := feed[i].line;
    content, empty := content0, empty0;
    CounterStep(feed, i);
    if line == "" {
      empty := empty + 1;
    } else {
      content := content + line;
    }
    assert content == Content(feed, i + 1);
    if empty >= MAX_EMPTY_BEFORE_CLOSE {
      var created := NewLogfileCreated(feed[i].disk, content);
      if created.None? {
        EndsOpenFailed(st0, feed, i, store.State(), content);
        return Some(OpenFailed(i)), content, empty;
      }
      if created.value {
        EndsReopened(st0, feed, i, store.State(), content);
        return Some(Reopened(i)), content, empty;
      }
      empty := 0;
    }
    assert empty == Counter(feed, i + 1) && !Breaks(feed, i);
    var status := HandleRead(store, feed, i, st0);
    if status != Continue {
      EndsStopped(st0, feed, i, store.State(), content, empty, status);
      return Some(if status == Exit then Exited(i) else Crashed(i)), content, empty;
    }
    stop := None;
  }

  /**
   * `track_logstream` from the moment the file is open: read until the file
   * rotates, a check cannot open it, a line exits or crashes the tailer, or
   * the reads run out.
   */
  method TrackLogstream(store: Store, feed: seq<Read>) returns (outcome: Outcome, content: string, empty: nat)
    modifies store
    ensures empty <= MAX_EMPTY_BEFORE_CLOSE
    ensures Ends(old(store.State()), feed, outcome, store.State(), content, empty)
  {
    ghost var st0 := store.State();
    empty := 0;
    content := "";
    var i := 0;
    while i < |feed|
      invariant 0 <= i <= |feed|
      invariant store.State() == Replay(st0, feed, i)
      invariant Quiet(st0, feed, i)
      invariant content == Content(feed, i)
      invariant empty == Counter(feed, i)
    {
      var stop;
      stop, content, empty := TrackRead(store, feed, i, st0, content, empty);
      if stop.Some? {
        return stop.value, content, empty;
      }
      i := i + 1;
    }
    EndsDrained(st0, feed, store.State(), content, empty);
    outcome := Drained;
  }
}
