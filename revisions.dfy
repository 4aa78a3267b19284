/** The records get-revisions.rb passes around and the oracle that stands for
    `get_version`, `get_date` and `get_rev` (a git checkout followed by a
    `nix eval` of glibc's version and derivation path). */
module Revisions {

  datatype Option<T> = None | Some(value: T)

  /** The nixpkgs revision every run starts from (master as of 2021-10-25). */
  const StartRev: string := "8e18c70837aa01ade3718cd0fd35b649b3a2cf52"

  /** What the oracle reports for one checked-out commit: glibc's version and
      derivation path, the commit date and the full revision id. */
  datatype Reading = Reading(version: string, drv: string, date: string, rev: string)

  /** The history behind StartRev as the oracle sees it. `readings[i]` is the
      reading of StartRev~i, or None when its evaluation fails; a checkout
      past the last entry fails. `origin` is the depth label a run gives
      StartRev itself, so StartRev~i is labelled `origin + i`. */
  datatype Oracle = Oracle(origin: int, readings: seq<Option<Reading>>) {

    /** One past the deepest label that can be checked out. */
    function End(): int {
      origin + |readings|
    }

    /** `get_version` (with `get_date` and `get_rev`) at the commit labelled
        `d`; None when the checkout or the evaluation fails. */
    function Read(d: int): Option<Reading> {
      if origin <= d < End() then readings[d - origin] else None
    }
  }

  /** The `Change` struct. The seed change has no version, drv or date. */
  datatype Change = Change(version: Option<string>, drv: Option<string>, date: Option<string>,
                           rev: string, depth: int)

  /** The synthetic baseline `find_versions` starts from. */
  function Seed(startDepth: int): Change {
    Change(None, None, None, StartRev, startDepth - 1)
  }

  /** The change record built from a reading at depth label `depth`. */
  function MakeChange(r: Reading, depth: int): Change {
    Change(Some(r.version), Some(r.drv), Some(r.date), r.rev, depth)
  }

  /** The commit `offset` behind `base` can be checked out and evaluated. */
  predicate Readable(o: Oracle, base: Change, offset: int) {
    o.Read(base.depth + offset).Some?
  }

  /** The commit `offset` behind `base` can be read and its drv is `base`'s. */
  predicate Matches(o: Oracle, base: Change, offset: int) {
    o.Read(base.depth + offset).Some? && Some(o.Read(base.depth + offset).value.drv) == base.drv
  }

  /** The commit `offset` behind `base` can be read and its drv is not `base`'s. */
  predicate Differs(o: Oracle, base: Change, offset: int) {
    o.Read(base.depth + offset).Some? && Some(o.Read(base.depth + offset).value.drv) != base.drv
  }

  /** Depths strictly increase along `cs`. */
  predicate DepthsIncreasing(cs: seq<Change>) {
    forall i, j :: 0 <= i < j < |cs| ==> cs[i].depth < cs[j].depth
  }
}
