/** The log filter of the shredder: every message carries a level, and only some
    levels reach standard output unless the verbose or internal option is on. */
module Logging {

  datatype Level = Info | Warning | Error | DryRun

  /** One logged message: its level and what it reports. */
  datatype Line<T> = Line(level: Level, text: T)

  /** Whether a message of this level is printed (shred.cpp:750): everything with -v or
      -i, otherwise everything but Info. */
  function ShouldPrint(verbose: bool, internal: bool, level: Level): bool
  {
    verbose || internal || level != Info
  }

  /** The printed lines of a run that logged `logged`, in order. */
  function Visible<T>(verbose: bool, internal: bool, logged: seq<Line<T>>): (printed: seq<Line<T>>)
    ensures |printed| <= |logged|
    ensures forall m :: m in printed ==> m in logged && ShouldPrint(verbose, internal, m.level)
  {
    if logged == [] then []
    else Visible(verbose, internal, logged[..|logged| - 1]) +
         (if ShouldPrint(verbose, internal, logged[|logged| - 1].level) then [logged[|logged| - 1]] else [])
  }

  /** Logging one more message prints it exactly when its level passes the filter. */
  lemma VisibleSnoc<T>(verbose: bool, internal: bool, logged: seq<Line<T>>, m: Line<T>)
    ensures Visible(verbose, internal, logged + [m]) ==
            Visible(verbose, internal, logged) + (if ShouldPrint(verbose, internal, m.level) then [m] else [])
  {
    assert (logged + [m])[..|logged|] == logged;
  }

  /** Every logged message that passes the filter is printed: the printed lines are
      exactly the logged messages whose level passes.  Without -v and -i that means every
      warning, error and dry-run message and no Info message. */
  lemma {:induction false} VisibleExactly<T>(verbose: bool, internal: bool, logged: seq<Line<T>>, m: Line<T>)
    ensures m in Visible(verbose, internal, logged) <==> m in logged && ShouldPrint(verbose, internal, m.level)
    ensures !verbose && !internal ==> (m in Visible(verbose, internal, logged) <==> m in logged && m.level != Info)
    decreases |logged|
  {
    if logged != [] {
      var init := logged[..|logged| - 1];
      assert logged == init + [logged[|logged| - 1]];
      VisibleExactly(verbose, internal, init, m);
    }
  }

  /** With -v or -i nothing is filtered out. */
  lemma {:induction false} VisibleVerbose<T>(verbose: bool, internal: bool, logged: seq<Line<T>>)
    requires verbose || internal
    ensures Visible(verbose, internal, logged) == logged
    decreases |logged|
  {
    if logged != [] {
      VisibleVerbose(verbose, internal, logged[..|logged| - 1]);
      assert logged[..|logged| - 1] + [logged[|logged| - 1]] == logged;
    }
  }
}
