/**
 * The git branch of a directory (git_utils.cpp): what libgit2 reports is
 * an input, and the daemon-wide cache in front of it keeps each answer
 * for two whole seconds of the monotonic clock.
 */
module GitUtils {
  import opened Wrappers

  /**
   * What libgit2 reports for a directory: no repository at or above it,
   * a repository whose HEAD does not resolve, or a HEAD reference with its
   * shorthand name (None when the library returns a null name).
   */
  datatype RepoProbe = NoRepository | NoHead | Head(shorthand: Option<string>)

  /** get_git_branch: a name exactly when the repository opens, HEAD resolves and has a name. */
  function GitBranch(p: RepoProbe): (b: Option<string>)
    ensures b.Some? <==> p.Head? && p.shorthand.Some?
    ensures b.Some? ==> b.value == p.shorthand.value
  {
    if p.Head? then p.shorthand else None
  }

  // ---------------------------------------------------------------------------
  // The clock

  /** steady_clock ticks are nanoseconds. */
  const TicksPerSecond: nat := 1_000_000_000

  /** How long an answer stays in the cache, in whole seconds. */
  const MaxAgeSeconds: nat := 2

  /** duration_cast<seconds>(d).count(): division that truncates toward zero. */
  function WholeSeconds(ticks: int): int {
    if ticks >= 0 then ticks / TicksPerSecond else -((-ticks) / TicksPerSecond)
  }

  /**
   * An entry captured `age` ticks ago is fresh exactly when the age is
   * below two seconds, counted in ticks; an age that is negative (the
   * clock read before the entry was stored) is fresh too.
   */
  lemma FreshWindow(age: int)
    ensures WholeSeconds(age) < MaxAgeSeconds <==> age < MaxAgeSeconds * TicksPerSecond
  {
    if age >= 0 {
      if age < MaxAgeSeconds * TicksPerSecond {
        assert age / TicksPerSecond < MaxAgeSeconds;
      } else {
        assert age / TicksPerSecond >= MaxAgeSeconds;
      }
    } else {
      assert (-age) / TicksPerSecond >= 0;
    }
  }

  // ---------------------------------------------------------------------------
  // The cache

  /** One remembered answer: the branch ("" for none) and when it was taken. */
  datatype CacheEntry = CacheEntry(branch: string, capturedAt: int)

  predicate Fresh(e: CacheEntry, now: int) {
    WholeSeconds(now - e.capturedAt) < MaxAgeSeconds
  }

  /** What one call of get_git_branch_cached returns and leaves behind. */
  datatype CacheStep = CacheStep(branch: Option<string>, entries: map<string, CacheEntry>, askedGit: bool)

  /**
   * get_git_branch_cached with the clock reading `now` and `probe` what
   * libgit2 would report for `cwd` at this moment: a fresh entry answers
   * alone ("" reads as no branch); otherwise git is asked and its answer,
   * absent written as "", replaces the entry.
   */
  function CachedBranch(entries: map<string, CacheEntry>, cwd: string, now: int, probe: RepoProbe): CacheStep {
    if cwd in entries && Fresh(entries[cwd], now) then
      var e := entries[cwd];
      CacheStep(if e.branch == "" then None else Some(e.branch), entries, false)
    else
      var b := GitBranch(probe);
      CacheStep(b, entries[cwd := CacheEntry(b.GetOr(""), now)], true)
  }

  /** The branch a stored entry reads back as. */
  function ReadBack(b: Option<string>): Option<string> {
    if b == Some("") then None else b
  }

  /**
   * Within two seconds of a lookup that asked git, a second lookup of the
   * same directory does not ask git and returns what git said, except that
   * an empty name comes back as no branch.
   */
  lemma RepeatWithinWindow(entries: map<string, CacheEntry>, cwd: string, now1: int, p1: RepoProbe,
                           now2: int, p2: RepoProbe)
    requires now2 - now1 < MaxAgeSeconds * TicksPerSecond
    ensures var first := CachedBranch(entries, cwd, now1, p1);
            var second := CachedBranch(first.entries, cwd, now2, p2);
            first.askedGit ==>
            && !second.askedGit
            && second.branch == ReadBack(first.branch)
            && second.entries == first.entries
  {
    var first := CachedBranch(entries, cwd, now1, p1);
    FreshWindow(now2 - now1);
    if first.askedGit {
      assert first.entries[cwd] == CacheEntry(first.branch.GetOr(""), now1);
    }
  }

  /** A lookup two seconds or more after the entry was stored asks git again and returns its answer. */
  lemma ExpiredAsksGit(entries: map<string, CacheEntry>, cwd: string, now: int, probe: RepoProbe)
    requires cwd in entries && now - entries[cwd].capturedAt >= MaxAgeSeconds * TicksPerSecond
    ensures var step := CachedBranch(entries, cwd, now, probe);
            && step.askedGit
            && step.branch == GitBranch(probe)
            && step.entries[cwd] == CacheEntry(GitBranch(probe).GetOr(""), now)
  {
    FreshWindow(now - entries[cwd].capturedAt);
  }

  /**
   * A lookup touches only the entry of its own directory and never drops
   * one: every other directory keeps its entry.
   */
  lemma LookupTouchesOneEntry(entries: map<string, CacheEntry>, cwd: string, now: int, probe: RepoProbe)
    ensures var step := CachedBranch(entries, cwd, now, probe);
            && step.entries.Keys == entries.Keys + {cwd}
            && (forall d :: d in entries && d != cwd ==> step.entries[d] == entries[d])
            && (step.askedGit <==> !(cwd in entries && Fresh(entries[cwd], now)))
  {
  }

  /** Whatever the cache held, the answer is git's answer now or the one stored less than two seconds ago. */
  lemma AnswerSource(entries: map<string, CacheEntry>, cwd: string, now: int, probe: RepoProbe)
    ensures var step := CachedBranch(entries, cwd, now, probe);
            || (step.askedGit && step.branch == GitBranch(probe))
            || (!step.askedGit && cwd in entries && now - entries[cwd].capturedAt < MaxAgeSeconds * TicksPerSecond
                && step.branch == ReadBack(Some(entries[cwd].branch)))
  {
    if cwd in entries {
      FreshWindow(now - entries[cwd].capturedAt);
    }
  }

  /** branch_cache: the process-wide map from directory to its last answer. */
  class BranchCache {
    var entries: map<string, CacheEntry>
    /** How many times the cache has asked git. */
    ghost var gitCalls: nat

    constructor ()
      ensures entries == map[] && gitCalls == 0
    {
      entries := map[];
      gitCalls := 0;
    }

    /**
     * get_git_branch_cached: `now` is the steady_clock reading taken on
     * entry and `probe` what libgit2 reports for `cwd` if it is asked.
     */
    method GetBranch(cwd: string, now: int, probe: RepoProbe) returns (branch: Option<string>)
      modifies this
      ensures var step := CachedBranch(old(entries), cwd, now, probe);
              && branch == step.branch
              && entries == step.entries
              && gitCalls == old(gitCalls) + (if step.askedGit then 1 else 0)
    {
      if cwd in entries {
        var e := entries[cwd];
        if WholeSeconds(now - e.capturedAt) < MaxAgeSeconds {
          if e.branch == "" {
            return None;
          }
          return Some(e.branch);
        }
      }
      branch := GitBranch(probe);
      gitCalls := gitCalls + 1;
      entries := entries[cwd := CacheEntry(branch.GetOr(""), now)];
    }
  }
}
