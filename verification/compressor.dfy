/** The submission side of `FilesCompresor`: the set of paths whose archive
    job is in flight, the paths present on disk, the `compress` guard that
    keeps at most one job per path, and the job's final clean-up. Submitting
    and finishing are atomic events; the thread pool and the lock are not
    modelled. */
module Compressor {
  import opened Wrappers
  import opened Paths

  /** Suffix of every archive file. */
  const ArchiveSuffix: string := ".tbz2"

  /** `computeTarBZip2Name`: the sibling `<name>.tbz2` in the same parent
      directory; `None` where `getParent` is `null` and Java throws. */
  function Target(p: Path): (r: Option<Path>)
    ensures r.None? <==> |p| == 0
    ensures r.Some? ==> Parent(r.value) == Parent(p) && FileName(r.value) == FileName(p) + ArchiveSuffix
  {
    match Parent(p)
    case None => None
    case Some(dir) => Some(Resolve(dir, FileName(p) + ArchiveSuffix))
  }

  /** The archive is never the source itself, nor anything inside the
      source, so deleting the source tree leaves the archive alone. */
  lemma TargetOutsideSource(p: Path)
    requires |p| > 0
    ensures Target(p).value != p
    ensures !IsPrefix(p, Target(p).value)
  {
    var t := Target(p).value;
    assert |FileName(t)| == |FileName(p)| + 5;
  }

  /** Different sources have different archives. */
  lemma TargetInjective(p: Path, q: Path)
    requires |p| > 0 && |q| > 0
    requires Target(p) == Target(q)
    ensures p == q
  {
    var t := Target(p).value;
    var a, b := FileName(p), FileName(q);
    assert a + ArchiveSuffix == b + ArchiveSuffix;
    assert |a| == |b|;
    assert a == (a + ArchiveSuffix)[..|a|];
    assert b == (b + ArchiveSuffix)[..|b|];
    assert Parent(p) == Parent(q);
    assert p == Parent(p).value + [a];
  }

  /** The compressor's state: paths with a job in flight (`inProgress`),
      the jobs handed to the executor and not yet finished, and the paths
      that exist on disk. */
  datatype Archiver = Archiver(inFlight: set<Path>, jobs: multiset<Path>, onDisk: set<Path>)

  /** Why `compress` did or did not schedule a job. `NoParent` stands for
      the exception thrown when the path has no parent. */
  datatype SubmitOutcome = Scheduled | AlreadyInFlight | TargetExists | NoParent

  datatype Submission = Submission(next: Archiver, outcome: SubmitOutcome)

  /** `compress(p)`: schedules a job only when `p` is not in flight and its
      archive does not exist; the in-flight test comes first, so a path in
      flight is never asked for its archive name. */
  function Compress(a: Archiver, p: Path): (r: Submission)
    ensures r.outcome != Scheduled ==> r.next == a
    ensures r.outcome == AlreadyInFlight <==> p in a.inFlight
    ensures r.outcome == NoParent <==> p !in a.inFlight && |p| == 0
    ensures r.outcome == TargetExists <==> p !in a.inFlight && |p| > 0 && Target(p).value in a.onDisk
    ensures r.outcome == Scheduled ==>
      && r.next.inFlight == a.inFlight + {p} && p !in a.inFlight
      && r.next.jobs == a.jobs + multiset{p}
      && r.next.onDisk == a.onDisk
  {
    if p in a.inFlight then Submission(a, AlreadyInFlight)
    else match Target(p)
      case None => Submission(a, NoParent)
      case Some(t) =>
        if t in a.onDisk then Submission(a, TargetExists)
        else Submission(Archiver(a.inFlight + {p}, a.jobs + multiset{p}, a.onDisk), Scheduled)
  }

  /** How a job ended, judged by its effect on disk. `Completed`: the
      deletion of the source directory returned, whatever happened after
      it; an error that shows only when the archive streams are closed is
      logged, but the source is gone and the archive may be incomplete.
      `Failed`: an exception ended the job before that deletion returned,
      so the source stays, possibly after the archive file was created.
      A source that is a regular file is never deleted: the directory
      deletion rejects it with an unchecked exception that escapes the
      `IOException` handler, so the job ends `Failed(true)` once its archive
      file was opened, and `Failed(false)` when opening that file fails. An
      unchecked I/O error while walking the tree escapes the same way. */
  datatype JobOutcome = Completed | Failed(archiveCreated: bool)

  /** The paths on disk after a job for `p` with archive `t` ended. */
  function DiskAfter(disk: set<Path>, p: Path, t: Path, o: JobOutcome): set<Path>
  {
    match o
    case Completed => (set q | q in disk && !IsPrefix(p, q)) + {t}
    case Failed(created) => if created then disk + {t} else disk
  }

  /** The end of one job for `p`. The `finally` block clears the in-flight
      marker of `p` and of nothing else, whatever the outcome. A job whose
      archive name cannot be computed throws before that block and keeps
      its marker. Finishing a path with no running job changes nothing. */
  function Finish(a: Archiver, p: Path, o: JobOutcome): (r: Archiver)
    ensures r.jobs == a.jobs - multiset{p}
    ensures p in a.jobs && |p| > 0 ==> r.inFlight == a.inFlight - {p}
    ensures |p| == 0 || p !in a.jobs ==> r.inFlight == a.inFlight && r.onDisk == a.onDisk
    ensures p in a.jobs && |p| > 0 && o == Completed ==>
      && Target(p).value in r.onDisk
      && (forall q :: IsPrefix(p, q) ==> q !in r.onDisk)
      && (forall q :: q in a.onDisk && !IsPrefix(p, q) ==> q in r.onDisk)
      && r.onDisk <= (set q | q in a.onDisk && !IsPrefix(p, q)) + {Target(p).value}
    ensures p in a.jobs && |p| > 0 && o.Failed? ==>
      && a.onDisk <= r.onDisk
      && r.onDisk - {Target(p).value} == a.onDisk - {Target(p).value}
      && (Target(p).value in r.onDisk <==> o.archiveCreated || Target(p).value in a.onDisk)
  {
    if p !in a.jobs then a
    else match Target(p)
      case None => a.(jobs := a.jobs - multiset{p})
      case Some(t) =>
        TargetOutsideSource(p);
        Archiver(a.inFlight - {p}, a.jobs - multiset{p}, DiskAfter(a.onDisk, p, t, o))
  }

  /** Every job in the executor belongs to exactly one in-flight path, and
      every in-flight path has a parent. */
  predicate Inv(a: Archiver)
  {
    && a.jobs == multiset(a.inFlight)
    && forall q :: q in a.inFlight ==> |q| > 0
  }

  /** What can happen next: a caller submits a path, or a job ends. */
  datatype Event = Submit(path: Path) | JobEnded(path: Path, outcome: JobOutcome)

  function Apply(a: Archiver, e: Event): Archiver
  {
    match e
    case Submit(p) => Compress(a, p).next
    case JobEnded(p, o) => Finish(a, p, o)
  }

  /** The state after the events `es`, in order. */
  function Run(a: Archiver, es: seq<Event>): Archiver
    decreases |es|
  {
    if |es| == 0 then a else Run(Apply(a, es[0]), es[1..])
  }

  /** Each event keeps the invariant. */
  lemma ApplyKeepsInv(a: Archiver, e: Event)
    requires Inv(a)
    ensures Inv(Apply(a, e))
  {
    match e
    case Submit(p) =>
      var r := Compress(a, p);
      if r.outcome == Scheduled {
        assert multiset(a.inFlight + {p}) == multiset(a.inFlight) + multiset{p};
      }
    case JobEnded(p, o) =>
      if p in a.jobs {
        assert p in a.inFlight;
        assert multiset(a.inFlight - {p}) == multiset(a.inFlight) - multiset{p};
      }
  }

  /** Deduplication: starting from a state that keeps the invariant (such as
      the empty one), after any sequence of submissions and job ends no path
      has more than one job queued or running, and a path has one exactly
      when it is marked in flight. */
  lemma {:induction false} RunKeepsInv(a: Archiver, es: seq<Event>)
    requires Inv(a)
    ensures Inv(Run(a, es))
    ensures forall q :: Run(a, es).jobs[q] <= 1
    ensures forall q :: Run(a, es).jobs[q] == 1 <==> q in Run(a, es).inFlight
    decreases |es|
  {
    if |es| > 0 {
      ApplyKeepsInv(a, es[0]);
      RunKeepsInv(Apply(a, es[0]), es[1..]);
    }
  }

  /** Two `compress(p)` calls with no job end in between schedule at most one
      job; when the first is scheduled the second finds `p` in flight. */
  lemma SubmitTwice(a: Archiver, p: Path)
    ensures var s1 := Compress(a, p); var s2 := Compress(s1.next, p);
      && !(s1.outcome == Scheduled && s2.outcome == Scheduled)
      && (s1.outcome == Scheduled ==> s2.outcome == AlreadyInFlight && s2.next.jobs[p] == a.jobs[p] + 1)
      && (s1.outcome != Scheduled ==> s2 == s1)
  {
  }

  /** After its job ends, `p` is no longer in flight, so a new `compress(p)`
      is scheduled exactly when no archive for `p` is on disk. A completed
      job leaves its archive, so the new call is refused; so does a failed
      one that had already created the archive file. */
  lemma ResubmitAfterFinish(a: Archiver, p: Path, o: JobOutcome)
    requires Inv(a) && p in a.inFlight
    ensures var b := Finish(a, p, o);
      && p !in b.inFlight
      && (Compress(b, p).outcome == Scheduled <==> Target(p).value !in b.onDisk)
      && (o == Completed ==> Compress(b, p).outcome == TargetExists)
      && (o == Failed(true) ==> Compress(b, p).outcome == TargetExists)
      && (o == Failed(false) ==> (Compress(b, p).outcome == Scheduled <==> Target(p).value !in a.onDisk))
  {
    assert p in a.jobs;
  }
}
