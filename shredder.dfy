/** The shredding engine above the byte level: the per-file decision procedure
    (shredFile), the path walker (processPath) and the driver in main, over an abstract
    file system whose open and remove outcomes come from the environment. */
module Shredder {
  import opened Wrappers
  import opened Logging
  import opened CommandLine
  import opened Overwrite

  // ---------------------------------------------------------------------------
  // The file system

  /** A path, as its sequence of components. */
  type Path = seq<string>

  /** What lstat finds at a path: a regular file with its bytes, a directory, a symbolic
      link with the path it points to, or anything else (a device, a socket, a pipe). */
  datatype Node = File(content: seq<Byte>) | Directory | Symlink(target: Path) | Special

  type FileSystem = map<Path, Node>

  /** The number of links the kernel follows before it reports ELOOP. */
  const MaxLinkHops: nat := 40

  datatype Resolution = Found(target: Path) | Dangling | TooManyLinks

  /** stat's view of a path: the node reached by following symbolic links. */
  function Resolve(fs: FileSystem, p: Path, hops: nat): Resolution
    decreases hops
  {
    if p !in fs then Dangling
    else match fs[p]
      case Symlink(t) => if hops == 0 then TooManyLinks else Resolve(fs, t, hops - 1)
      case _ => Found(p)
  }

  /** What Resolve finds is a node of the file system that is not a link. */
  lemma {:induction false} ResolveFound(fs: FileSystem, p: Path, hops: nat)
    requires Resolve(fs, p, hops).Found?
    ensures Resolve(fs, p, hops).target in fs && !fs[Resolve(fs, p, hops).target].Symlink?
    ensures !fs[p].Symlink? ==> Resolve(fs, p, hops).target == p
    decreases hops
  {
    if fs[p].Symlink? {
      ResolveFound(fs, fs[p].target, hops - 1);
    }
  }

  /** stat(p) finds a regular file: the one it names, or the one its links lead to. */
  function RegularTarget(fs: FileSystem, p: Path): Option<Path>
  {
    var r := Resolve(fs, p, MaxLinkHops);
    if r.Found? && r.target in fs && fs[r.target].File? then Some(r.target) else None
  }

  /** stat(p) finds a directory. */
  predicate IsDirectoryPath(fs: FileSystem, p: Path)
  {
    var r := Resolve(fs, p, MaxLinkHops);
    r.Found? && r.target in fs && fs[r.target].Directory?
  }

  /** e lies somewhere inside the directory d. */
  predicate Below(d: Path, e: Path)
  {
    |d| < |e| && e[..|d|] == d
  }

  /** Nothing lies inside d. */
  predicate NothingBelow(fs: FileSystem, d: Path)
  {
    forall e :: e in fs ==> !Below(d, e)
  }

  /** fs::is_empty on a path that stat finds to be a directory. */
  predicate IsEmptyDirectory(fs: FileSystem, p: Path)
  {
    var r := Resolve(fs, p, MaxLinkHops);
    r.Found? && r.target in fs && fs[r.target].Directory? && NothingBelow(fs, r.target)
  }

  /** How a file system may change while shredding: nothing appears; what disappears is
      a regular file, a link, or one of `spared`; a regular file keeps its length; every
      other node stays as it was. */
  predicate Shrinks(before: FileSystem, after: FileSystem, spared: set<Path>)
  {
    && after.Keys <= before.Keys
    && (forall k :: k in before && k !in after ==> k in spared || before[k].File? || before[k].Symlink?)
    && (forall k :: k in after ==> after[k] == before[k] ||
                                   (before[k].File? && after[k].File? && |after[k].content| == |before[k].content|))
  }

  lemma ShrinksTrans(a: FileSystem, b: FileSystem, c: FileSystem, s: set<Path>, t: set<Path>)
    requires Shrinks(a, b, s) && Shrinks(b, c, t)
    ensures Shrinks(a, c, s + t)
  {
  }

  // ---------------------------------------------------------------------------
  // The environment and the log

  /** What the model takes from outside: the block size the platform reports, whether
      the n-th open and the n-th removal of the run succeed, the random generator of the
      n-th overwrite pass, the byte (if any) the device reads back wrong in the read-back
      of the n-th pass, and how a command-line argument names a path. */
  datatype Environment = Environment(blockSize: nat, openOk: nat -> bool, removeOk: nat -> bool,
                                     random: nat -> RandomOracle, readFault: nat -> Option<nat>,
                                     locate: string -> Path)

  /** What a logged message reports. */
  datatype Event =
    | SimulatedShred(path: Path)
    | EmptyWillBeDeleted(path: Path)
    | EmptyDeleted(path: Path)
    | EmptyDeleteFailed(path: Path)
    | EmptyNotOverwritten(path: Path)
    | OpenFailed(path: Path)
    | OpenGaveUp(path: Path)
    | PassCompleted(pass: nat, path: Path)
    | VerificationFailed(path: Path)
    | Deleted(path: Path, verified: bool)
    | DeleteFailed(path: Path)
    | KeptOverwritten(path: Path)
    | SkippedSymlink(path: Path)
    | EnteringDirectory(path: Path)
    | DirectoryDeleted(path: Path)
    | DirectoryKept(path: Path)
    | DirectoryNotEmpty(path: Path)
    | NeedsRecursive(path: Path)
    | NotFileOrDirectory(path: Path)
    | FilesystemError(path: Path)
    | Completed(recursive: bool)

  /** Everything a run changes: the file system, the messages logged, and how many opens,
      removals and overwrite passes it has made. */
  datatype RunState = RunState(fs: FileSystem, logged: seq<Line<Event>>, opens: nat, removals: nat, passes: nat)

  datatype Outcome = Outcome(ok: bool, state: RunState)

  function Logged(s: RunState, level: Level, e: Event): RunState
  {
    s.(logged := s.logged + [Line(level, e)])
  }

  lemma AppendOne<T>(a: seq<T>, b: seq<T>, x: T)
    ensures (a + b) + [x] == a + (b + [x])
  {
  }

  // ---------------------------------------------------------------------------
  // shredFile, as a function of the state

  /** The open of the file is tried at most this many times. */
  const MaxOpenAttempts: nat := 10

  /** How many opens fail in a row from the start-th one on, before the end-th. */
  function OpenFailures(ok: nat -> bool, start: nat, end: nat): (k: nat)
    ensures start + k <= end || k == 0
    ensures forall j :: start <= j < start + k ==> !ok(j)
    ensures start + k < end ==> ok(start + k)
    decreases end - start
  {
    if start >= end || ok(start) then 0 else 1 + OpenFailures(ok, start + 1, end)
  }

  /** The contract of OpenFailures pins it down: k failures and then a success (or the
      end) is what it returns. */
  lemma {:induction false} OpenFailuresIs(ok: nat -> bool, start: nat, end: nat, k: nat)
    requires start + k <= end
    requires forall j :: start <= j < start + k ==> !ok(j)
    requires start + k < end ==> ok(start + k)
    ensures OpenFailures(ok, start, end) == k
    decreases k
  {
    if k > 0 {
      assert !ok(start);
      OpenFailuresIs(ok, start + 1, end, k - 1);
    }
  }

  /** The retry loop: one Error per failed attempt; the opens used are the failures, and
      the successful attempt when there is one. */
  function OpenSpec(env: Environment, s: RunState, p: Path): RunState
  {
    var k := OpenFailures(env.openOk, s.opens, s.opens + MaxOpenAttempts);
    s.(opens := s.opens + (if k < MaxOpenAttempts then k + 1 else k),
       logged := s.logged + OpenErrors(p, k))
  }

  /** The passes the count option asks for: a count of zero or less runs none. */
  function PassCount(c: Config): nat
  {
    if c.overwriteCount > 0 then c.overwriteCount else 0
  }

  /** The bytes of the file after n passes, the first of which uses the generator of pass
      `first`: each pass overwrites every byte, so only the last one shows. */
  function Overwritten(content: seq<Byte>, n: nat, bs: nat, secure: bool, random: nat -> RandomOracle, first: nat)
    : seq<Byte>
    requires bs > 0
  {
    if n == 0 then content else PassContent(|content|, bs, secure, random(first + n - 1))
  }

  lemma OverwrittenStep(content: seq<Byte>, i: nat, bs: nat, secure: bool, random: nat -> RandomOracle, first: nat)
    requires bs > 0
    ensures Overwritten(content, i + 1, bs, secure, random, first) == PassContent(|content|, bs, secure, random(first + i))
  {
  }

  /** The Info lines of passes 1 to n. */
  function PassLines(p: Path, n: nat): seq<Line<Event>>
  {
    if n == 0 then [] else PassLines(p, n - 1) + [Line(Info, PassCompleted(n, p))]
  }

  /** The Error lines of k failed opens. */
  function OpenErrors(p: Path, k: nat): seq<Line<Event>>
  {
    if k == 0 then [] else OpenErrors(p, k - 1) + [Line(Error, OpenFailed(p))]
  }

  /** Whether, among the n passes from pass `first` on over a file of `size` bytes, one
      reports a failed read-back: one with verification on whose read fault lies inside
      the file. */
  predicate ReadBackFails(c: Config, env: Environment, size: nat, first: nat, n: nat)
  {
    n > 0 && (ReadBackFails(c, env, size, first, n - 1) || (c.verify && Corrupts(env.readFault(first + n - 1), size)))
  }

  /** The flag is set exactly when verification is on and some pass's read-back reads a
      byte of the file wrong. */
  lemma {:induction false} ReadBackFailsSome(c: Config, env: Environment, size: nat, first: nat, n: nat)
    ensures ReadBackFails(c, env, size, first, n) <==>
            c.verify && exists j :: first <= j < first + n && Corrupts(env.readFault(j), size)
  {
    if n > 0 {
      ReadBackFailsSome(c, env, size, first, n - 1);
      if Corrupts(env.readFault(first + n - 1), size) {
        assert first <= first + n - 1 < first + n;
      }
    }
  }

  /** One more pass sets the flag exactly when its own read-back fails. */
  lemma ReadBackFailsStep(c: Config, env: Environment, size: nat, first: nat, i: nat)
    ensures ReadBackFails(c, env, size, first, i + 1) ==
            (ReadBackFails(c, env, size, first, i) || (c.verify && Corrupts(env.readFault(first + i), size)))
  {
  }

  /** The warning the pass loop leaves when a read-back failed. */
  function VerificationWarning(c: Config, env: Environment, size: nat, first: nat, p: Path): seq<Line<Event>>
  {
    if ReadBackFails(c, env, size, first, PassCount(c)) then [Line(Warning, VerificationFailed(p))] else []
  }

  /** The pass loop on the file q, reached through p. */
  function PassesSpec(c: Config, env: Environment, s: RunState, p: Path, q: Path): RunState
    requires env.blockSize > 0 && q in s.fs && s.fs[q].File?
  {
    var n := PassCount(c);
    s.(fs := s.fs[q := File(Overwritten(s.fs[q].content, n, env.blockSize, c.secureMode, env.random, s.passes))],
       logged := s.logged + PassLines(p, n) + VerificationWarning(c, env, |s.fs[q].content|, s.passes, p),
       passes := s.passes + n)
  }

  /** std::remove(p), the removals-th removal of the run. */
  function RemoveSpec(env: Environment, s: RunState, p: Path): RunState
  {
    s.(fs := if env.removeOk(s.removals) then s.fs - {p} else s.fs, removals := s.removals + 1)
  }

  /** An empty file is removed without being overwritten, or kept with a warning. */
  function EmptyFileSpec(c: Config, env: Environment, s: RunState, p: Path): Outcome
  {
    if !c.keepFiles then
      var s1 := RemoveSpec(env, Logged(s, Info, EmptyWillBeDeleted(p)), p);
      if env.removeOk(s.removals) then Outcome(true, Logged(s1, Info, EmptyDeleted(p)))
      else Outcome(false, Logged(s1, Error, EmptyDeleteFailed(p)))
    else Outcome(true, Logged(s, Warning, EmptyNotOverwritten(p)))
  }

  /** After the passes: remove the file, or keep it. */
  function FinishSpec(c: Config, env: Environment, s: RunState, p: Path): Outcome
  {
    if !c.keepFiles then
      var s1 := RemoveSpec(env, s, p);
      if env.removeOk(s.removals) then Outcome(true, Logged(s1, Info, Deleted(p, c.verify)))
      else Outcome(false, Logged(s1, Error, DeleteFailed(p)))
    else Outcome(true, Logged(s, Info, KeptOverwritten(p)))
  }

  /** shredFile(p), where stat(p) finds the regular file q. */
  function ShredFileSpec(c: Config, env: Environment, s: RunState, p: Path, q: Path): Outcome
    requires env.blockSize > 0 && q in s.fs && s.fs[q].File?
  {
    if c.dryRun then Outcome(true, Logged(s, DryRun, SimulatedShred(p)))
    else if |s.fs[q].content| == 0 then EmptyFileSpec(c, env, s, p)
    else
      var s1 := OpenSpec(env, s, p);
      if OpenFailures(env.openOk, s.opens, s.opens + MaxOpenAttempts) == MaxOpenAttempts then
        Outcome(false, Logged(s1, Error, OpenGaveUp(p)))
      else FinishSpec(c, env, PassesSpec(c, env, s1, p, q), p)
  }

  // ---------------------------------------------------------------------------
  // What shredFile promises

  /** A dry run only logs that it would shred the file. */
  lemma DryRunShredsNothing(c: Config, env: Environment, s: RunState, p: Path, q: Path)
    requires env.blockSize > 0 && q in s.fs && s.fs[q].File? && c.dryRun
    ensures var o := ShredFileSpec(c, env, s, p, q);
            o.ok && o.state.fs == s.fs && o.state.logged == s.logged + [Line(DryRun, SimulatedShred(p))] &&
            o.state.opens == s.opens && o.state.removals == s.removals && o.state.passes == s.passes
  {
  }

  /** An empty file is never opened nor overwritten.  Without -k it is removed, and the
      result is false exactly when that removal fails; with -k it stays and the result is
      true. */
  lemma EmptyFileNotOverwritten(c: Config, env: Environment, s: RunState, p: Path, q: Path)
    requires env.blockSize > 0 && q in s.fs && s.fs[q].File? && |s.fs[q].content| == 0 && !c.dryRun
    ensures var o := ShredFileSpec(c, env, s, p, q);
            o.state.opens == s.opens && o.state.passes == s.passes &&
            (c.keepFiles ==> o.ok && o.state.fs == s.fs && o.state.removals == s.removals) &&
            (!c.keepFiles ==> (o.ok <==> env.removeOk(s.removals)) && o.state.removals == s.removals + 1 &&
                              o.state.fs == if o.ok then s.fs - {p} else s.fs)
  {
  }

  /** The file is opened at most ten times.  When all ten attempts fail the result is
      false, nothing is written or removed, and an Error is logged for every attempt and
      once more for giving up. */
  lemma OpenAtMostTenTimes(c: Config, env: Environment, s: RunState, p: Path, q: Path)
    requires env.blockSize > 0 && q in s.fs && s.fs[q].File?
    ensures ShredFileSpec(c, env, s, p, q).state.opens <= s.opens + MaxOpenAttempts
    ensures !c.dryRun && |s.fs[q].content| > 0 && (forall j :: s.opens <= j < s.opens + MaxOpenAttempts ==> !env.openOk(j)) ==>
            var o := ShredFileSpec(c, env, s, p, q);
            !o.ok && o.state.fs == s.fs && o.state.passes == s.passes && o.state.removals == s.removals &&
            o.state.opens == s.opens + MaxOpenAttempts &&
            o.state.logged == s.logged + OpenErrors(p, MaxOpenAttempts) + [Line(Error, OpenGaveUp(p))]
  {
    if !c.dryRun && |s.fs[q].content| > 0 && (forall j :: s.opens <= j < s.opens + MaxOpenAttempts ==> !env.openOk(j)) {
      OpenFailuresIs(env.openOk, s.opens, s.opens + MaxOpenAttempts, MaxOpenAttempts);
    }
  }

  /** Once the file opens, after k failed attempts: an Error for each of those, then
      exactly max(0, count) passes, each logged in order, then one warning when some
      read-back failed; the removal is attempted whenever -k is absent, whatever the
      verification found; and the result is false only when that removal fails. */
  lemma OpenedFileSchedule(c: Config, env: Environment, s: RunState, p: Path, q: Path, k: nat)
    requires env.blockSize > 0 && q in s.fs && s.fs[q].File? && |s.fs[q].content| > 0 && !c.dryRun
    requires k < MaxOpenAttempts && (forall j :: s.opens <= j < s.opens + k ==> !env.openOk(j)) && env.openOk(s.opens + k)
    ensures var o := ShredFileSpec(c, env, s, p, q);
            o.state.opens == s.opens + k + 1 && o.state.passes == s.passes + PassCount(c) &&
            o.state.removals == s.removals + (if c.keepFiles then 0 else 1) &&
            (o.ok <==> c.keepFiles || env.removeOk(s.removals)) &&
            o.state.logged == s.logged + OpenErrors(p, k) + PassLines(p, PassCount(c)) +
              VerificationWarning(c, env, |s.fs[q].content|, s.passes, p) +
              [if c.keepFiles then Line(Info, KeptOverwritten(p))
               else if env.removeOk(s.removals) then Line(Info, Deleted(p, c.verify))
               else Line(Error, DeleteFailed(p))]
  {
    OpenFailuresIs(env.openOk, s.opens, s.opens + MaxOpenAttempts, k);
  }

  /** A failed read-back does not stop the removal: the warning is logged, and without -k
      the file is still removed, with the result that of the removal alone. */
  lemma FailedReadBackStillRemoves(c: Config, env: Environment, s: RunState, p: Path, q: Path, k: nat)
    requires env.blockSize > 0 && q in s.fs && s.fs[q].File? && |s.fs[q].content| > 0 && !c.dryRun
    requires k < MaxOpenAttempts && (forall j :: s.opens <= j < s.opens + k ==> !env.openOk(j)) && env.openOk(s.opens + k)
    requires ReadBackFails(c, env, |s.fs[q].content|, s.passes, PassCount(c))
    ensures var o := ShredFileSpec(c, env, s, p, q);
            Line(Warning, VerificationFailed(p)) in o.state.logged &&
            (!c.keepFiles ==> o.state.removals == s.removals + 1 && (o.ok <==> env.removeOk(s.removals))) &&
            (!c.keepFiles && env.removeOk(s.removals) ==> p !in o.state.fs)
  {
    OpenedFileSchedule(c, env, s, p, q, k);
    var o := ShredFileSpec(c, env, s, p, q);
    var w := Line(Warning, VerificationFailed(p));
    var before := s.logged + OpenErrors(p, k) + PassLines(p, PassCount(c));
    assert o.state.logged[|before|] == w;
    OpenFailuresIs(env.openOk, s.opens, s.opens + MaxOpenAttempts, k);
  }

  /** What is left of the file: after at least one pass, exactly the bytes of the last
      pass, and in any case as many bytes as before. */
  lemma ShreddedLength(c: Config, env: Environment, s: RunState, p: Path, q: Path)
    requires env.blockSize > 0 && q in s.fs && s.fs[q].File?
    ensures var o := ShredFileSpec(c, env, s, p, q);
            q in o.state.fs ==> o.state.fs[q].File? && |o.state.fs[q].content| == |s.fs[q].content|
  {
    var n := |s.fs[q].content|;
    if !c.dryRun && n > 0 && OpenFailures(env.openOk, s.opens, s.opens + MaxOpenAttempts) < MaxOpenAttempts && PassCount(c) > 0 {
      var s1 := OpenSpec(env, s, p);
      SurvivorsLength(n, env.blockSize, 0, c.secureMode, 0, env.random(s1.passes + PassCount(c) - 1));
      assert |PassesSpec(c, env, s1, p, q).fs[q].content| == n;
    }
  }

  lemma ShreddedBytes(c: Config, env: Environment, s: RunState, p: Path, q: Path)
    requires env.blockSize > 0 && q in s.fs && s.fs[q].File?
    ensures var o := ShredFileSpec(c, env, s, p, q);
            !c.dryRun && |s.fs[q].content| > 0 && OpenFailures(env.openOk, s.opens, s.opens + MaxOpenAttempts) < MaxOpenAttempts &&
            PassCount(c) > 0 && q in o.state.fs ==>
            o.state.passes == s.passes + PassCount(c) &&
            o.state.fs[q].content == PassContent(|s.fs[q].content|, env.blockSize, c.secureMode, env.random(o.state.passes - 1))
  {
    var o := ShredFileSpec(c, env, s, p, q);
    if !c.dryRun && |s.fs[q].content| > 0 && OpenFailures(env.openOk, s.opens, s.opens + MaxOpenAttempts) < MaxOpenAttempts &&
       PassCount(c) > 0 && q in o.state.fs {
      var s1 := OpenSpec(env, s, p);
      var s2 := PassesSpec(c, env, s1, p, q);
      assert o == FinishSpec(c, env, s2, p);
      assert o.state.fs[q] == s2.fs[q] && o.state.passes == s2.passes;
    }
  }

  /** shredFile changes at most the file q and the entry p. */
  lemma ShredFileFrame(c: Config, env: Environment, s: RunState, p: Path, q: Path)
    requires env.blockSize > 0 && q in s.fs && s.fs[q].File?
    ensures var o := ShredFileSpec(c, env, s, p, q);
            o.state.fs.Keys <= s.fs.Keys && s.fs.Keys - o.state.fs.Keys <= {p} &&
            (forall k :: k in o.state.fs && k != q ==> o.state.fs[k] == s.fs[k]) &&
            o.state.opens >= s.opens && o.state.removals >= s.removals && o.state.passes >= s.passes
    ensures c.dryRun ==> ShredFileSpec(c, env, s, p, q).state.fs == s.fs
  {
  }

  /** Shredding a regular file, directly or through a link, only shrinks the file system. */
  lemma ShredFileShrinks(c: Config, env: Environment, s: RunState, p: Path, q: Path)
    requires env.blockSize > 0 && RegularTarget(s.fs, p) == Some(q)
    ensures q in s.fs && s.fs[q].File?
    ensures Shrinks(s.fs, ShredFileSpec(c, env, s, p, q).state.fs, {})
  {
    ResolveFound(s.fs, p, MaxLinkHops);
    ShredFileFrame(c, env, s, p, q);
    ShreddedLength(c, env, s, p, q);
  }

  // ---------------------------------------------------------------------------
  // The recursive case of processPath, as a function of the state

  /** One entry of the walk: stat it, and shred it through shredFile when stat finds a
      regular file there, itself or at the end of its links. */
  function WalkStep(c: Config, env: Environment, s: RunState, e: Path): RunState
    requires env.blockSize > 0
  {
    var t := RegularTarget(s.fs, e);
    if t.Some? then ShredFileSpec(c, env, s, e, t.value).state else s
  }

  /** The walk over the entries of `order`, one after the other. */
  function WalkSpec(c: Config, env: Environment, s: RunState, order: seq<Path>): RunState
    requires env.blockSize > 0
    decreases |order|
  {
    if order == [] then s else WalkStep(c, env, WalkSpec(c, env, s, order[..|order| - 1]), order[|order| - 1])
  }

  /** Walking one more entry is one more step. */
  lemma WalkSpecSnoc(c: Config, env: Environment, s: RunState, order: seq<Path>, e: Path)
    requires env.blockSize > 0
    ensures WalkSpec(c, env, s, order + [e]) == WalkStep(c, env, WalkSpec(c, env, s, order), e)
  {
    assert (order + [e])[..|order|] == order;
  }

  /** The entries of `order` the walk shreds: those stat finds to be regular files when
      the walk reaches them. */
  function ShreddedBy(c: Config, env: Environment, s: RunState, order: seq<Path>): (r: set<Path>)
    requires env.blockSize > 0
    ensures forall e :: e in r ==> e in order
    decreases |order|
  {
    if order == [] then {}
    else
      var before := order[..|order| - 1];
      var e := order[|order| - 1];
      ShreddedBy(c, env, s, before) + (if RegularTarget(WalkSpec(c, env, s, before).fs, e).Some? then {e} else {})
  }

  /** `order` is a walk of the directory d of `before` that ended in `after`: entries of
      d, each visited once; all of them when the walk was not aborted, and otherwise an
      unvisited entry whose links loop. */
  predicate WalkOf(before: FileSystem, after: FileSystem, d: Path, order: seq<Path>, aborted: bool)
  {
    && (forall i :: 0 <= i < |order| ==> order[i] in before && Below(d, order[i]))
    && (forall i, j :: 0 <= i < j < |order| ==> order[i] != order[j])
    && (!aborted ==> forall e :: e in before && Below(d, e) ==> e in order)
    && (aborted ==> exists e :: e in before && Below(d, e) && e !in order && Resolve(after, e, MaxLinkHops).TooManyLinks?)
  }

  /** The state after entering the directory and walking it. */
  function Walked(c: Config, env: Environment, s: RunState, path: Path, order: seq<Path>): RunState
    requires env.blockSize > 0
  {
    WalkSpec(c, env, Logged(s, Info, EnteringDirectory(path)), order)
  }

  /** The end of the recursive case after a walk that did not throw: remove the
      directory when -k is absent and stat finds it empty, and otherwise keep it with a
      Warning.  A failed fs::remove throws, and the handler reports it. */
  function RemoveDirectorySpec(c: Config, env: Environment, s: RunState, path: Path): RunState
  {
    if !c.keepFiles && IsEmptyDirectory(s.fs, path) then
      var s1 := RemoveSpec(env, s, path);
      if env.removeOk(s.removals) then Logged(s1, Info, DirectoryDeleted(path))
      else Logged(s1, Error, FilesystemError(path))
    else if c.keepFiles then Logged(s, Warning, DirectoryKept(path))
    else Logged(s, Warning, DirectoryNotEmpty(path))
  }

  /** processPath on a directory under -r: an Info on entering, the walk over `order`,
      then an Error when the walk threw, or else the removal step. */
  function DirectorySpec(c: Config, env: Environment, s: RunState, path: Path, order: seq<Path>, aborted: bool)
    : RunState
    requires env.blockSize > 0
  {
    var w := Walked(c, env, s, path, order);
    if aborted then Logged(w, Error, FilesystemError(path)) else RemoveDirectorySpec(c, env, w, path)
  }

  // ---------------------------------------------------------------------------
  // What the recursive case promises

  /** One step of the walk only shrinks the file system, removes at most the entry it
      visits, and keeps every other regular file a regular file. */
  lemma WalkStepFrame(c: Config, env: Environment, s: RunState, e: Path)
    requires env.blockSize > 0
    ensures var t := WalkStep(c, env, s, e);
            Shrinks(s.fs, t.fs, {}) && s.fs.Keys - t.fs.Keys <= {e} &&
            (forall k :: k in s.fs && k != e && s.fs[k].File? ==> k in t.fs && t.fs[k].File?)
  {
    var t := RegularTarget(s.fs, e);
    if t.Some? {
      ShredFileShrinks(c, env, s, e, t.value);
      ShredFileFrame(c, env, s, e, t.value);
      ShreddedLength(c, env, s, e, t.value);
    }
  }

  /** A regular file the walk has not reached yet is still a regular file. */
  lemma {:induction false} WalkKeepsFiles(c: Config, env: Environment, s: RunState, order: seq<Path>)
    requires env.blockSize > 0
    ensures var w := WalkSpec(c, env, s, order);
            forall e :: e in s.fs && s.fs[e].File? && e !in order ==> e in w.fs && w.fs[e].File?
    decreases |order|
  {
    if order != [] {
      var before := order[..|order| - 1];
      WalkKeepsFiles(c, env, s, before);
      WalkStepFrame(c, env, WalkSpec(c, env, s, before), order[|order| - 1]);
    }
  }

  /** What a shorter walk shreds, the whole walk shreds too. */
  lemma {:induction false} ShreddedByPrefix(c: Config, env: Environment, s: RunState, order: seq<Path>, m: nat)
    requires env.blockSize > 0 && m <= |order|
    ensures ShreddedBy(c, env, s, order[..m]) <= ShreddedBy(c, env, s, order)
    decreases |order|
  {
    if m < |order| {
      var before := order[..|order| - 1];
      assert before[..m] == order[..m];
      ShreddedByPrefix(c, env, s, before, m);
    } else {
      assert order[..m] == order;
    }
  }

  /** A walk that is not aborted shreds every regular file its directory held when it
      started: only a file's own shredFile removes it. */
  lemma WalkShredsEveryFile(c: Config, env: Environment, s: RunState, after: FileSystem, d: Path, order: seq<Path>)
    requires env.blockSize > 0 && WalkOf(s.fs, after, d, order, false)
    ensures forall e :: e in s.fs && Below(d, e) && s.fs[e].File? ==> e in ShreddedBy(c, env, s, order)
  {
    forall e | e in s.fs && Below(d, e) && s.fs[e].File?
      ensures e in ShreddedBy(c, env, s, order)
    {
      var i :| 0 <= i < |order| && order[i] == e;
      var before := order[..i];
      assert e !in before;
      WalkKeepsFiles(c, env, s, before);
      var w := WalkSpec(c, env, s, before);
      assert Resolve(w.fs, e, MaxLinkHops) == Found(e);
      var upto := order[..i + 1];
      assert upto[..|upto| - 1] == before && upto[|upto| - 1] == e;
      assert e in ShreddedBy(c, env, s, upto);
      ShreddedByPrefix(c, env, s, order, i + 1);
    }
  }

  /** The last line shredFile logs for the path p: every branch ends with one of these. */
  predicate Reports(l: Line<Event>, p: Path)
  {
    match l.text
    case SimulatedShred(q) => q == p
    case EmptyDeleted(q) => q == p
    case EmptyDeleteFailed(q) => q == p
    case EmptyNotOverwritten(q) => q == p
    case OpenGaveUp(q) => q == p
    case Deleted(q, _) => q == p
    case DeleteFailed(q) => q == p
    case KeptOverwritten(q) => q == p
    case _ => false
  }

  /** shredFile only appends to the log, and its last line reports on p. */
  lemma ShredFileReports(c: Config, env: Environment, s: RunState, p: Path, q: Path)
    requires env.blockSize > 0 && q in s.fs && s.fs[q].File?
    ensures var l := ShredFileSpec(c, env, s, p, q).state.logged;
            |s.logged| < |l| && l[..|s.logged|] == s.logged && Reports(l[|l| - 1], p)
  {
    if !c.dryRun && |s.fs[q].content| > 0 && OpenFailures(env.openOk, s.opens, s.opens + MaxOpenAttempts) < MaxOpenAttempts {
      var s2 := PassesSpec(c, env, OpenSpec(env, s, p), p, q);
      assert s2.logged[..|s.logged|] == s.logged;
    }
  }

  /** Every file the walk shreds is reported in the log, which the walk only extends. */
  lemma {:induction false} WalkReports(c: Config, env: Environment, s: RunState, order: seq<Path>)
    requires env.blockSize > 0
    ensures var l := WalkSpec(c, env, s, order).logged;
            |s.logged| <= |l| && l[..|s.logged|] == s.logged &&
            forall e :: e in ShreddedBy(c, env, s, order) ==> exists k :: 0 <= k < |l| && Reports(l[k], e)
    decreases |order|
  {
    if order != [] {
      var before := order[..|order| - 1];
      var e := order[|order| - 1];
      WalkReports(c, env, s, before);
      var w := WalkSpec(c, env, s, before);
      var l := WalkSpec(c, env, s, order).logged;
      var t := RegularTarget(w.fs, e);
      if t.Some? {
        ShredFileReports(c, env, w, e, t.value);
        assert l[..|w.logged|] == w.logged;
        assert Reports(l[|l| - 1], e);
        forall x | x in ShreddedBy(c, env, s, before)
          ensures exists k :: 0 <= k < |l| && Reports(l[k], x)
        {
          var k :| 0 <= k < |w.logged| && Reports(w.logged[k], x);
          assert l[k] == w.logged[k];
        }
      }
    }
  }

  /** The removal step: one more message, the directory's entry removed or not, and it
      is removed exactly when -k is absent, stat finds it empty and fs::remove
      succeeds, in which case its deletion is the message logged. */
  lemma RemoveDirectoryEffect(c: Config, env: Environment, s: RunState, path: Path)
    ensures var o := RemoveDirectorySpec(c, env, s, path);
            o.opens == s.opens && o.passes == s.passes &&
            |o.logged| == |s.logged| + 1 && o.logged[..|s.logged|] == s.logged &&
            (o.fs == s.fs || o.fs == s.fs - {path}) && Shrinks(s.fs, o.fs, {path}) &&
            ((path in s.fs && path !in o.fs) <==> !c.keepFiles && IsEmptyDirectory(s.fs, path) && env.removeOk(s.removals)) &&
            ((path in s.fs && path !in o.fs) <==> o.logged[|s.logged|] == Line(Info, DirectoryDeleted(path))) &&
            (path in s.fs && s.fs[path].Directory? && path !in o.fs ==> NothingBelow(o.fs, path))
  {
    if path in s.fs && s.fs[path].Directory? {
      ResolveFound(s.fs, path, MaxLinkHops);
    }
  }

  /** The recursive case as a whole: a walk that is not aborted shreds every regular
      file below the directory, and the directory's entry is removed exactly when the
      walk was not aborted, -k is absent, the directory was empty after the walk and
      fs::remove succeeded. */
  lemma DirectoryOutcome(c: Config, env: Environment, s: RunState, path: Path, d: Path, order: seq<Path>, aborted: bool)
    requires env.blockSize > 0 && WalkOf(s.fs, Walked(c, env, s, path, order).fs, d, order, aborted)
    ensures var start := Logged(s, Info, EnteringDirectory(path));
            !aborted ==> forall e :: e in s.fs && Below(d, e) && s.fs[e].File? ==> e in ShreddedBy(c, env, start, order)
    ensures var w := Walked(c, env, s, path, order);
            var o := DirectorySpec(c, env, s, path, order, aborted);
            (path in w.fs && path !in o.fs) <==> !aborted && !c.keepFiles && IsEmptyDirectory(w.fs, path) && env.removeOk(w.removals)
  {
    var start := Logged(s, Info, EnteringDirectory(path));
    if !aborted {
      WalkShredsEveryFile(c, env, start, Walked(c, env, s, path, order).fs, d, order);
    }
    RemoveDirectoryEffect(c, env, Walked(c, env, s, path, order), path);
  }

  // ---------------------------------------------------------------------------
  // The running program

  class Engine {
    const config: Config
    const env: Environment
    var fs: FileSystem
    /** Every message logged so far, and the ones of them that reached standard output. */
    var messages: seq<Line<Event>>
    var output: seq<Line<Event>>
    var opens: nat
    var removals: nat
    var passes: nat

    predicate Valid()
      reads this
    {
      output == Visible(config.verbose, config.internal, messages) && env.blockSize > 0
    }

    function State(): RunState
      reads this
    {
      RunState(fs, messages, opens, removals, passes)
    }

    constructor (config: Config, env: Environment, fs: FileSystem)
      requires env.blockSize > 0
      ensures Valid() && this.config == config && this.env == env && State() == RunState(fs, [], 0, 0, 0)
    {
      this.config := config;
      this.env := env;
      this.fs := fs;
      messages := [];
      output := [];
      opens := 0;
      removals := 0;
      passes := 0;
    }

    /** logMessage: record the message, and print it when its level passes the filter. */
    method Log(level: Level, e: Event)
      requires Valid()
      modifies this
      ensures Valid() && messages == old(messages) + [Line(level, e)]
      ensures fs == old(fs) && opens == old(opens) && removals == old(removals) && passes == old(passes)
    {
      VisibleSnoc(config.verbose, config.internal, messages, Line(level, e));
      if ShouldPrint(config.verbose, config.internal, level) {
        output := output + [Line(level, e)];
      }
      messages := messages + [Line(level, e)];
    }

    /** A message logged only when `cond` holds. */
    method LogIf(cond: bool, level: Level, e: Event)
      requires Valid()
      modifies this
      ensures Valid() && State() == if cond then Logged(old(State()), level, e) else old(State())
    {
      if cond {
        Log(level, e);
      }
    }

    /** std::remove(p) (and fs::remove(p)): whether it succeeds is up to the environment. */
    method Remove(p: Path) returns (removed: bool)
      requires Valid()
      modifies this
      ensures Valid() && removed == env.removeOk(old(removals)) && State() == RemoveSpec(env, old(State()), p)
    {
      removed := env.removeOk(removals);
      removals := removals + 1;
      if removed {
        fs := fs - {p};
      }
    }

    /** The open of the file, tried up to ten times, with an Error for every failure. */
    method OpenWithRetries(p: Path) returns (isOpen: bool)
      requires Valid()
      modifies this
      ensures Valid() && State() == OpenSpec(env, old(State()), p)
      ensures isOpen <==> OpenFailures(env.openOk, old(opens), old(opens) + MaxOpenAttempts) < MaxOpenAttempts
    {
      ghost var start := opens;
      var attempts;
      isOpen, attempts := OpenLoop(p);
      OpenFailuresIs(env.openOk, start, start + MaxOpenAttempts, attempts);
    }

    /** The retry loop itself: `attempts` opens fail, and then one succeeds or the
        attempts are used up. */
    method OpenLoop(p: Path) returns (isOpen: bool, attempts: nat)
      requires Valid()
      modifies this
      ensures Valid() && attempts <= MaxOpenAttempts
      ensures opens == old(opens) + attempts + (if isOpen then 1 else 0)
      ensures forall j :: old(opens) <= j < old(opens) + attempts ==> !env.openOk(j)
      ensures if isOpen then attempts < MaxOpenAttempts && env.openOk(old(opens) + attempts) else attempts == MaxOpenAttempts
      ensures fs == old(fs) && removals == old(removals) && passes == old(passes)
      ensures messages == old(messages) + OpenErrors(p, attempts)
    {
      attempts := 0;
      isOpen := false;
      ghost var start, openOk, log := opens, env.openOk, messages;
      while attempts < MaxOpenAttempts
        invariant Valid() && attempts <= MaxOpenAttempts && opens == start + attempts
        invariant forall j :: start <= j < start + attempts ==> !openOk(j)
        invariant fs == old(fs) && removals == old(removals) && passes == old(passes)
        invariant messages == log + OpenErrors(p, attempts)
      {
        var ok := TryOpen(p, log, attempts);
        if ok {
          isOpen := true;
          break;
        }
        attempts := attempts + 1;
      }
    }

    /** One call of open, after k failed ones have been logged after `log`, and the
        Error it logs when it fails. */
    method TryOpen(p: Path, ghost log: seq<Line<Event>>, ghost k: nat) returns (ok: bool)
      requires Valid() && messages == log + OpenErrors(p, k)
      modifies this
      ensures Valid() && ok == env.openOk(old(opens)) && opens == old(opens) + 1
      ensures fs == old(fs) && removals == old(removals) && passes == old(passes)
      ensures messages == log + OpenErrors(p, if ok then k else k + 1)
    {
      ok := env.openOk(opens);
      opens := opens + 1;
      if !ok {
        var line := Line(Error, OpenFailed(p));
        assert OpenErrors(p, k + 1) == OpenErrors(p, k) + [line];
        AppendOne(log, OpenErrors(p, k), line);
        Log(Error, OpenFailed(p));
      }
    }

    /** The pass loop over the open file q: max(0, count) calls of overwriteWithRandomData,
        each logged; a pass that reports a verification failure sets a flag the later
        passes never clear, and the flag gives one warning after the loop.  Closing the
        stream leaves the bytes it holds in q. */
    method RunPasses(p: Path, q: Path)
      requires Valid() && q in fs && fs[q].File?
      modifies this
      ensures Valid() && State() == PassesSpec(config, env, old(State()), p, q)
    {
      var content := fs[q].content;
      var file := StreamOver(content);
      var verificationFailed := PassLoop(file, p, content);
      LogIf(verificationFailed, Warning, VerificationFailed(p));
      fs := fs[q := File(file.data[..])];
    }

    /** The loop itself, over the stream `file` that holds `content` when it starts. */
    method PassLoop(file: FileStream, p: Path, ghost content: seq<Byte>)
      returns (verificationFailed: bool)
      requires Valid() && file.data[..] == content
      modifies this, file.data, file`writes
      ensures Valid()
      ensures file.data[..] == Overwritten(content, PassCount(config), env.blockSize, config.secureMode, env.random, old(passes))
      ensures verificationFailed == ReadBackFails(config, env, |content|, old(passes), PassCount(config))
      ensures fs == old(fs) && opens == old(opens) && removals == old(removals) && passes == old(passes) + PassCount(config)
      ensures messages == old(messages) + PassLines(p, PassCount(config))
    {
      verificationFailed := false;
      ghost var first, log := passes, messages;
      var i := 0;
      while i < config.overwriteCount
        invariant Valid() && 0 <= i <= PassCount(config) && file.data.Length == |content|
        invariant file.data[..] == Overwritten(content, i, env.blockSize, config.secureMode, env.random, first)
        invariant verificationFailed == ReadBackFails(config, env, |content|, first, i)
        invariant fs == old(fs) && opens == old(opens) && removals == old(removals) && passes == first + i
        invariant messages == log + PassLines(p, i)
      {
        OverwrittenStep(content, i, env.blockSize, config.secureMode, env.random, first);
        ReadBackFailsStep(config, env, |content|, first, i);
        var status := OnePass(file, p, i);
        if status == 1 {
          verificationFailed := true;
        }
        AppendOne(log, PassLines(p, i), Line(Info, PassCompleted(i + 1, p)));
        i := i + 1;
      }
    }

    /** A read/write stream over a file holding `content`. */
    static method StreamOver(content: seq<Byte>) returns (file: FileStream)
      ensures fresh(file) && fresh(file.data) && file.data[..] == content
    {
      var data := new Byte[|content|](k requires 0 <= k < |content| => content[k]);
      file := new FileStream(data);
    }

    /** Pass i + 1: seek to the start, overwrite the whole file, log the pass. */
    method OnePass(file: FileStream, p: Path, i: nat) returns (status: int)
      requires Valid()
      modifies this, file.data, file`writes
      ensures Valid()
      ensures status == if config.verify && Corrupts(env.readFault(old(passes)), file.data.Length) then 1 else 0
      ensures file.data[..] == PassContent(file.data.Length, env.blockSize, config.secureMode, env.random(old(passes)))
      ensures fs == old(fs) && opens == old(opens) && removals == old(removals) && passes == old(passes) + 1
      ensures messages == old(messages) + [Line(Info, PassCompleted(i + 1, p))]
    {
      var lastRandomData;
      status, lastRandomData := OverwriteWithRandomData(file, env.blockSize, config.secureMode, config.verify, env.random(passes),
                                                           env.readFault(passes));
      passes := passes + 1;
      Log(Info, PassCompleted(i + 1, p));
    }

    /** After the passes: remove the file unless -k, with a message saying whether the
        passes were verified. */
    method Finish(p: Path) returns (ok: bool)
      requires Valid()
      modifies this
      ensures Valid() && Outcome(ok, State()) == FinishSpec(config, env, old(State()), p)
    {
      if !config.keepFiles {
        var removed := Remove(p);
        if removed {
          Log(Info, Deleted(p, config.verify));
        } else {
          Log(Error, DeleteFailed(p));
          return false;
        }
      } else {
        Log(Info, KeptOverwritten(p));
      }
      return true;
    }

    /** The zero-size case of shredFile. */
    method ShredEmpty(p: Path) returns (ok: bool)
      requires Valid()
      modifies this
      ensures Valid() && Outcome(ok, State()) == EmptyFileSpec(config, env, old(State()), p)
    {
      if !config.keepFiles {
        Log(Info, EmptyWillBeDeleted(p));
        var removed := Remove(p);
        if removed {
          Log(Info, EmptyDeleted(p));
        } else {
          Log(Error, EmptyDeleteFailed(p));
          return false;
        }
      } else {
        Log(Warning, EmptyNotOverwritten(p));
      }
      return true;
    }

    /** shredFile(p), where stat(p) finds the regular file q. */
    method ShredFile(p: Path, q: Path) returns (ok: bool)
      requires Valid() && q in fs && fs[q].File?
      modifies this
      ensures Valid() && Outcome(ok, State()) == ShredFileSpec(config, env, old(State()), p, q)
    {
      if config.dryRun {
        Log(DryRun, SimulatedShred(p));
        return true;
      }
      if |fs[q].content| == 0 {
        ok := ShredEmpty(p);
        return;
      }
      var isOpen := OpenWithRetries(p);
      if !isOpen {
        Log(Error, OpenGaveUp(p));
        return false;
      }
      RunPasses(p, q);
      ok := Finish(p);
    }

    /** One entry of the walk: an entry whose links loop makes the iterator throw, which
        `tooMany` reports; otherwise the entry is shredded when stat finds a regular
        file there. */
    method VisitEntry(e: Path) returns (tooMany: bool)
      requires Valid()
      modifies this
      ensures Valid() && Shrinks(old(fs), fs, {})
      ensures config.dryRun ==> fs == old(fs)
      ensures tooMany == Resolve(old(fs), e, MaxLinkHops).TooManyLinks?
      ensures State() == if tooMany then old(State()) else WalkStep(config, env, old(State()), e)
    {
      if Resolve(fs, e, MaxLinkHops).TooManyLinks? {
        return true;
      }
      var target := RegularTarget(fs, e);
      if target.Some? {
        ShredFileShrinks(config, env, State(), e, target.value);
        ShredFileFrame(config, env, State(), e, target.value);
        var _ := ShredFile(e, target.value);
      }
      return false;
    }

    /** The walk of recursive_directory_iterator over the directory d: every entry found
        inside d when the walk starts is visited once, in an order the model leaves open
        and `order` reports, and the state is that of WalkSpec over it.  An entry whose
        links loop makes the walk throw, which `aborted` reports. */
    method Walk(d: Path) returns (aborted: bool, ghost order: seq<Path>)
      requires Valid()
      modifies this
      ensures Valid() && Shrinks(old(fs), fs, {})
      ensures config.dryRun ==> fs == old(fs)
      ensures State() == WalkSpec(config, env, old(State()), order)
      ensures WalkOf(old(fs), fs, d, order, aborted)
    {
      var pending := set e | e in fs && Below(d, e);
      ghost var entries := pending;
      ghost var start := State();
      aborted, order := false, [];
      while pending != {}
        invariant Valid() && Shrinks(start.fs, fs, {})
        invariant config.dryRun ==> fs == start.fs
        invariant State() == WalkSpec(config, env, start, order)
        invariant entries == set e | e in start.fs && Below(d, e)
        invariant pending <= entries
        invariant forall i :: 0 <= i < |order| ==> order[i] in entries && order[i] !in pending
        invariant forall i, j :: 0 <= i < j < |order| ==> order[i] != order[j]
        invariant forall e :: e in entries && e !in pending ==> e in order
        decreases pending
      {
        var e :| e in pending;
        pending := pending - {e};
        ghost var before := fs;
        var tooMany := VisitEntry(e);
        if tooMany {
          assert e in start.fs && Below(d, e) && e !in order;
          return true, order;
        }
        ShrinksTrans(start.fs, before, fs, {}, {});
        WalkSpecSnoc(config, env, start, order, e);
        order := order + [e];
      }
    }

    /** The recursive case of processPath: path names, or links to, the directory d.
        Walk d, then remove path if -k is absent and d is now empty; the state is that
        of DirectorySpec over the walk's order. */
    method ShredDirectory(path: Path, d: Path) returns (aborted: bool, ghost order: seq<Path>)
      requires Valid() && d in fs && fs[d].Directory? && Resolve(fs, path, MaxLinkHops) == Found(d)
      modifies this
      ensures Valid() && Shrinks(old(fs), fs, {path})
      ensures config.dryRun ==> fs == old(fs) || fs == old(fs) - {path}
      ensures path in old(fs) && old(fs[path]).Directory? && path !in fs ==> !config.keepFiles && NothingBelow(fs, path)
      ensures State() == DirectorySpec(config, env, old(State()), path, order, aborted)
      ensures WalkOf(old(fs), Walked(config, env, old(State()), path, order).fs, d, order, aborted)
    {
      Log(Info, EnteringDirectory(path));
      aborted, order := Walk(d);
      if aborted {
        Log(Error, FilesystemError(path));
        return;
      }
      ghost var walked := State();
      RemoveDirectory(path);
      RemoveDirectoryEffect(config, env, walked, path);
    }

    /** The end of a walk that was not aborted: the directory is removed when -k is
        off and nothing is left below it, and otherwise kept with a Warning. */
    method RemoveDirectory(path: Path)
      requires Valid()
      modifies this
      ensures Valid() && State() == RemoveDirectorySpec(config, env, old(State()), path)
    {
      if !config.keepFiles && IsEmptyDirectory(fs, path) {
        var ok := Remove(path);
        if ok {
          Log(Info, DirectoryDeleted(path));
        } else {
          // fs::remove throws on failure, and the handler reports it
          Log(Error, FilesystemError(path));
        }
      } else if config.keepFiles {
        Log(Warning, DirectoryKept(path));
      } else {
        Log(Warning, DirectoryNotEmpty(path));
      }
    }

    /** processPath(path). */
    method ProcessPath(path: Path) returns (ghost order: seq<Path>, ghost aborted: bool)
      requires Valid()
      modifies this
      ensures Valid() && Shrinks(old(fs), fs, {path})
      ensures config.dryRun ==> fs == old(fs) || fs == old(fs) - {path}
      ensures old(path in fs && fs[path].Symlink?) && !config.followSymlinks ==>
              State() == Logged(old(State()), Warning, SkippedSymlink(path))
      ensures !(old(path in fs && fs[path].Symlink?) && !config.followSymlinks) &&
              old(IsDirectoryPath(fs, path)) && !config.recursive ==>
              State() == Logged(old(State()), Warning, NeedsRecursive(path))
      ensures !(old(path in fs && fs[path].Symlink?) && !config.followSymlinks) && old(RegularTarget(fs, path)).Some? ==>
              State() == ShredFileSpec(config, env, old(State()), path, old(RegularTarget(fs, path)).value).state
      ensures !(old(path in fs && fs[path].Symlink?) && !config.followSymlinks) &&
              !old(Resolve(fs, path, MaxLinkHops)).TooManyLinks? && !old(IsDirectoryPath(fs, path)) &&
              old(RegularTarget(fs, path)).None? ==>
              State() == Logged(old(State()), Error, NotFileOrDirectory(path))
      ensures !(old(path in fs && fs[path].Symlink?) && !config.followSymlinks) &&
              old(IsDirectoryPath(fs, path)) && config.recursive ==>
              State() == DirectorySpec(config, env, old(State()), path, order, aborted) &&
              WalkOf(old(fs), Walked(config, env, old(State()), path, order).fs,
                     old(Resolve(fs, path, MaxLinkHops)).target, order, aborted)
      ensures path in old(fs) && old(fs[path]).Directory? && path !in fs ==>
              config.recursive && !config.keepFiles && NothingBelow(fs, path)
    {
      order, aborted := [], false;
      if path in fs && fs[path].Symlink? && !config.followSymlinks {
        Log(Warning, SkippedSymlink(path));
        return;
      }
      var r := Resolve(fs, path, MaxLinkHops);
      if r.TooManyLinks? {
        Log(Error, FilesystemError(path));
        return;
      }
      if r.Found? {
        ResolveFound(fs, path, MaxLinkHops);
      }
      if r.Found? && fs[r.target].Directory? {
        if config.recursive {
          aborted, order := ShredDirectory(path, r.target);
        } else {
          Log(Warning, NeedsRecursive(path));
        }
      } else if r.Found? && fs[r.target].File? {
        ShredFileShrinks(config, env, State(), path, r.target);
        var _ := ShredFile(path, r.target);
      } else {
        Log(Error, NotFileOrDirectory(path));
      }
    }
  }

  // ---------------------------------------------------------------------------
  // main

  /** How the program ends: with an exit code, or terminated by an exception that
      std::stoi threw and nothing caught. */
  datatype Status = Exited(code: int) | Terminated

  /** ::tolower in the C locale. */
  function Lower(s: string): (r: string)
    ensures |r| == |s|
    ensures forall k :: 0 <= k < |r| ==> !('A' <= r[k] <= 'Z')
    ensures forall k :: 0 <= k < |s| && !('A' <= s[k] <= 'Z') ==> r[k] == s[k]
    ensures forall k :: 0 <= k < |s| && 'A' <= s[k] <= 'Z' ==>
              'a' <= r[k] <= 'z' && r[k] as int - 'a' as int == s[k] as int - 'A' as int
  {
    seq(|s|, k requires 0 <= k < |s| => if 'A' <= s[k] <= 'Z' then (s[k] as int + 32) as char else s[k])
  }

  /** Lowering twice is lowering once. */
  lemma LowerTwice(s: string)
    ensures Lower(Lower(s)) == Lower(s)
  {
    var once := Lower(s);
    assert forall k :: 0 <= k < |once| ==> Lower(once)[k] == once[k];
  }

  /** The answer to the -i prompt that lets the run go on: y or yes, in any case. */
  predicate Confirms(reply: string)
  {
    Lower(reply) == "y" || Lower(reply) == "yes"
  }

  /** The replies that confirm: y or yes with each letter in either case, and nothing
      else (no white space around them either). */
  lemma ConfirmingReplies(reply: string)
    ensures Confirms(reply) <==>
            (|reply| == 1 && reply[0] in "yY") ||
            (|reply| == 3 && reply[0] in "yY" && reply[1] in "eE" && reply[2] in "sS")
  {
    var r := Lower(reply);
    if |reply| == 1 {
      assert r == "y" <==> reply[0] in "yY";
    } else if |reply| == 3 {
      assert r == "yes" <==> r[0] == 'y' && r[1] == 'e' && r[2] == 's';
      assert r[0] == 'y' <==> reply[0] in "yY";
      assert r[1] == 'e' <==> reply[1] in "eE";
      assert r[2] == 's' <==> reply[2] in "sS";
    }
  }

  /** The paths the arguments name. */
  function Located(env: Environment, files: seq<string>): set<Path>
  {
    if files == [] then {} else Located(env, files[..|files| - 1]) + {env.locate(files[|files| - 1])}
  }

  /** main, from the argument after the program name on: parse the arguments, ask for
      confirmation under -i (`reply` is the line read from standard input), process
      every path in order, and log the completion. */
  method Shred(args: seq<string>, reply: string, env: Environment, disk: FileSystem)
    returns (status: Status, after: FileSystem, printed: seq<Line<Event>>)
    requires env.blockSize > 0
    ensures Parse(args).Exit? ==> status == Exited(Parse(args).code) && after == disk && printed == []
    ensures Parse(args).Aborted? ==> status == Terminated && after == disk && printed == []
    ensures Parse(args).Run? && Parse(args).config.internal && !Confirms(reply) ==>
            status == Exited(3) && after == disk && printed == []
    ensures Parse(args).Run? && (!Parse(args).config.internal || Confirms(reply)) ==>
            status == Exited(0) && Shrinks(disk, after, Located(env, Parse(args).files)) &&
            (Parse(args).config.dryRun ==> forall k :: k in after ==> after[k] == disk[k])
  {
    var parsed := ParseCommandLine(args);
    match parsed
    case Exit(code) =>
      return Exited(code), disk, [];
    case Aborted =>
      return Terminated, disk, [];
    case Run(config, files) =>
      if config.internal && !Confirms(reply) {
        return Exited(3), disk, [];
      }
      after, printed := ProcessAll(config, env, disk, files);
      return Exited(0), after, printed;
  }

  /** The loop over the paths in main and the completion message after it. */
  method ProcessAll(config: Config, env: Environment, disk: FileSystem, files: seq<string>)
    returns (after: FileSystem, printed: seq<Line<Event>>)
    requires env.blockSize > 0
    ensures Shrinks(disk, after, Located(env, files))
    ensures config.dryRun ==> forall k :: k in after ==> after[k] == disk[k]
  {
    var shredder := new Engine(config, env, disk);
    for i := 0 to |files|
      invariant shredder.Valid() && shredder.config == config && shredder.env == env
      invariant Shrinks(disk, shredder.fs, Located(env, files[..i]))
      invariant config.dryRun ==> forall k :: k in shredder.fs ==> shredder.fs[k] == disk[k]
    {
      ghost var before := shredder.fs;
      var _, _ := shredder.ProcessPath(env.locate(files[i]));
      ShrinksTrans(disk, before, shredder.fs, Located(env, files[..i]), {env.locate(files[i])});
      assert files[..i + 1][..i] == files[..i];
    }
    assert files[..|files|] == files;
    shredder.Log(Info, Completed(config.recursive));
    return shredder.fs, shredder.output;
  }
}
