# get-revisions: glibc derivation changes in nixpkgs history

`get-revisions.rb` walks backward through nixpkgs history from a fixed
revision (`StartRev`) and finds the commits where glibc's derivation path
(`drv`) changes. Each step has three parts:

- An exponential probe (`find_next_drv`) checks offsets 1, 3, 7, 15, …
  behind the last change found. It stops at the first offset whose `drv`
  differs.
- A binary search (`find_drv_change`) with a round-up midpoint narrows the
  probe's window down to the commit where the `drv` flips. It builds a
  `Change` record there.
- `find_versions` hands the change to a `Log`, which groups changes by glibc
  version. The log is written to disk after every fifth change. The run
  stops once `versions_to_find` changes have brought a version different
  from the one before.

The project models these parts in four modules.

- `Revisions` (`revisions.dfy`):
  - The `Change` struct.
  - The seed change `find_versions` starts from.
  - An **oracle** that stands for `get_version`, `get_date` and `get_rev`,
    which are a `git checkout` and a `nix eval` in the program.
    - The oracle is a finite history `readings`. Entry `i` is the reading
      (version, drv, date, rev) of `StartRev~i`.
    - A `None` entry is an evaluation that fails.
    - A checkout past the last entry fails.
    - A commit is addressed by the run's depth label. `StartRev` itself
      carries the seed's label `start_depth - 1`.
    - A failure is `None` here. In the program it is the exception that
      ends the run.
- `Search` (`search.dfy`):
  - `find_next_drv` and `find_drv_change` as methods with loops. Each is
    proved equal to a recursive specification function (`ProbeFrom`,
    `BisectFrom`).
  - Lemmas about those functions: the probe window, the boundary the search
    ends on, and the leftmost result when the `drv` flips only once.
- `ChangeLog` (`change_log.dfy`): the `Log` class.
  - Its `changes` field is the `@changes` hash, a `map` from version to a
    sequence of records. Its `numChanges` field is `@num_changes`.
  - Ghost fields record the changes added so far and the last snapshot
    `write_log` persisted.
  - The class invariant says three things:
    - the hash is the grouping of the added changes, in order;
    - the counter counts them;
    - the snapshot holds all but at most the current batch of five.
- `Driver` (`driver.dfy`):
  - `find_versions` as a method over the oracle and a `Log`. It is proved
    against `Walk`, a recursive function that describes a whole run.
  - Lemmas about runs: counting, the chain of increasing depths, the first
    change, and version groups ordered by depth.

## Model

| member | source | states |
|---|---|---|
| Search.ProbeFrom | get-revisions.rb:32-42 | a probe result is an offset of at least 1 whose commit can be read and whose drv differs from the baseline's |
| Search.ProbeFromStops | get-revisions.rb:35-40 | the probe stops at the first probe offset that does not match: Some with that offset when it differs, None when it cannot be read; every earlier probe matched |
| Search.ProbeWindow | get-revisions.rb:33-41 | the returned offset d is at least 1 and differs, has the form 2^k - 1 with k >= 1, the previous probe (d - 1) / 2 (that is, depth - step) matched when d > 1, and every probe offset below d matched |
| Search.ProbeFailure | get-revisions.rb:37 | when the probe fails, some probe's commit could not be checked out or evaluated and every probe before it matched |
| Search.FindNextDrv | get-revisions.rb:32-42 | the doubling-step loop returns exactly what the probe specification gives, so it inherits the properties above |
| Search.Midpoint | get-revisions.rb:49 | the round-up midpoint lies in [lo, hi], lies strictly above lo when lo < hi, and equals hi exactly when hi - lo <= 1 |
| Search.BisectFrom | get-revisions.rb:46-61 | a search result lies between lo and hi (strictly above lo when lo < hi) and is the change built from the oracle's reading at its own depth |
| Search.BisectBoundary | get-revisions.rb:51-59 | from the entry invariant (drv at hi differs; lo is 0 or matches), a successful search ends at an offset whose drv differs while the offset before it is 0 or matches |
| Search.BisectSucceeds | get-revisions.rb:49-50 | when every commit in the window can be read, the search returns a change |
| Search.BisectLeftmost | get-revisions.rb:46-61 | when the drv flips only once in (0, hi], the search returns the smallest offset whose drv differs, and every offset before it matches |
| Search.FindDrvChange | get-revisions.rb:46-61 | the lo/hi narrowing loop returns exactly what the search specification gives |
| Driver.NextChange | get-revisions.rb:20-21 | the change found after `prev` lies strictly deeper than `prev` and inside the history |
| Driver.NextChangeIsBoundary | get-revisions.rb:20-21 | the change found by probe plus search sits at a drv boundary within the probe window, carrying the oracle's reading at its depth |
| Driver.NextChangeAfterProbe | get-revisions.rb:20-21 | after a successful probe, the search cannot fail unless a commit in the window fails to evaluate |
| Driver.FindNextChange | get-revisions.rb:20-21 | probe then search computes exactly the next change of the run |
| Driver.Walk | get-revisions.rb:19-27 | a run that finishes ends with a count no lower than its start and no lower than the target, and it logs fewer changes than there are commits behind its starting change, so the loop cannot run longer than the history |
| Driver.WalkCounts | get-revisions.rb:19-27 | a finished run has counted exactly the version changes among its logged changes, and ends with the target when it started below it |
| Driver.WalkLinks | get-revisions.rb:20-26 | each logged change is the next change found after the one logged before it, the first after the starting change |
| Driver.WalkChain | get-revisions.rb:20-26 | the logged changes form a chain: each is the next change after its predecessor (the first after the seed), all lie deeper than the start, and depths strictly increase |
| Driver.FirstChangeAtStart | get-revisions.rb:16-21 | from the seed (drv nil) the first iteration stops at offset 1 and yields the change labelled start_depth from the reading of StartRev~1, or fails when that commit cannot be read |
| Driver.RunFacts | get-revisions.rb:14-28 | a run from the seed ends with versions_found equal to the target (0 for a negative target), logs changes in strictly increasing depth from start_depth on, and lists every version's occurrences in increasing depth |
| Driver.FindVersions | get-revisions.rb:14-28 | the loop returns the run's outcome, with the final count equal to the target (0 for a negative target); the log receives exactly the run's changes in order and stays valid |
| ChangeLog.OccurrencesSnoc | get-revisions.rb:123 | adding one change appends its record to the occurrences of its own version only |
| ChangeLog.OccurrencesPresent | get-revisions.rb:111 | a version has occurrences exactly when some added change carries it |
| ChangeLog.GroupIsOccurrences | get-revisions.rb:111-123 | the grouped hash lists under each version exactly the records of that version in the order added, and has the key only when such a change exists |
| ChangeLog.GroupSnoc | get-revisions.rb:123 | appending under the change's version, in the auto-vivifying hash, builds the grouping of the extended change list |
| ChangeLog.OccurrencesIncreasing | get-revisions.rb:123 | changes added in increasing depth appear under each version in increasing depth |
| ChangeLog.GroupIncreasing | get-revisions.rb:111-123 | a log built from changes found in increasing depth lists every version's occurrences in increasing depth |
| ChangeLog.BatchedPrefix | get-revisions.rb:125 | the count covered by the batched writes is a multiple of 5 within 4 of the number of changes, that is, the largest multiple of 5 not above it |
| ChangeLog.BatchedPrefixStep | get-revisions.rb:125 | one more change either completes a batch of 5, which is then written, or leaves the covered count unchanged |
| ChangeLog.Log.constructor | get-revisions.rb:110-115 | a new log has an empty hash, a zero counter and nothing persisted |
| ChangeLog.Log.WriteLog | get-revisions.rb:117-119 | the persisted snapshot becomes the whole current hash; nothing else changes |
| ChangeLog.Log.AddChange | get-revisions.rb:121-126 | the record (the change without its version) is appended under the change's version and no other key changes; the counter grows by one; the log is written exactly when the new count is a multiple of 5; at most 4 added changes are ever unpersisted |

## Notes on the design

- The binary search returns an offset in [1, hi], never 0: the round-up
  midpoint of 0 and hi >= 1 is at least 1. Offset 0 is the baseline itself.
  One might expect the search to find the smallest differing offset in
  [0, hi]. The code guarantees that only when the drv flips once in the
  window (`Search.BisectLeftmost`). In general it guarantees a boundary
  (`Search.BisectBoundary`), and the model states exactly that.
- Likewise the probe does not find the smallest differing offset. It
  returns the first *probed* offset (of the form 2^k - 1) that differs.
  Smaller differing offsets between two probes are left to the binary
  search (`Search.ProbeWindow`).
- The seed is `StartRev` itself but is labelled `start_depth - 1`, so the
  commit `StartRev~i` carries the label `start_depth - 1 + i`.
  `start_depth` only shifts these labels: the run always starts at
  `StartRev`. `StartRev` is never evaluated itself, because every probe
  offset is at least 1.
- `find_versions` returns `nil` in the program (the value of its `while`
  loop). `Driver.FindVersions` returns the final `versions_found` instead,
  or `None` when `get_version` fails, where the program raises.

## Left out

- The subprocess side of `get_version`, `get_date` and `get_rev`: `checkout`,
  `git_nixpkgs`, `run` and `Open3.capture3`, the `nix eval` expression and
  its JSON decoding. These are external processes; the oracle's `readings`
  parameter stands for their results. A failed command becomes `None`.
- `write_log`'s file write, `JSON.pretty_generate`, the output path built
  from `dir` and `StartRev`, and the `at_exit` hook. These are file I/O and
  process-exit machinery. `ChangeLog.Log.WriteLog` copies the hash into a
  ghost snapshot instead, and the constructor takes no `dir`.
- The abort thread, `maybe_stop` and `@abort`. Cross-thread cancellation
  ends the process between two steps; the model has no concurrency.
- `puts` in `add_change` and `print_depth`: console output only.
- The default arguments of `find_versions` (`versions_to_find: 10`,
  `start_depth: 0`, a fresh `Log`) and the `@log` global it sets.
  `Driver.FindVersions` takes all of them as explicit parameters, and the
  log is passed to it rather than stored.
- Checkouts relative to a change's `rev`. The program checks out
  `change.rev~depth`, with `change.rev` taken from `get_rev` at the found
  commit. The model addresses commits by depth label from `StartRev`
  instead. The two agree because in git `(X~a)~b` is `X~(a+b)`, following
  first parents.
- Separate failures of `get_date` and `get_rev`. A reading bundles them with
  `get_version`, so a commit whose date or rev lookup fails reads as
  `None` at every probe. The program calls those two lookups only where
  the binary search stops (`mid == hi`).
- The `NixpkgsPath` existence check and the top-level script lines: bootstrap
  plumbing.
- Search.FindDrvChange: requires `hi >= 0`. Its only caller passes the
  probe's result, which is at least 1.
- Driver.FindVersions: its contract does not restate that each version's
  occurrences are in increasing depth. `Driver.RunFacts` proves it for the
  changes of a run, and the log's invariant ties its hash to exactly those
  changes.
- Integer arithmetic is unbounded in the model, as Ruby's integers are.
  Ruby's `/` floors while Dafny's is Euclidean. The two agree here because
  every midpoint is taken over non-negative operands.
