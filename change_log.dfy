/** The `Log` class of get-revisions.rb: the changes found so far, grouped by
    glibc version, and the periodic flush to disk. */
module ChangeLog {
  import opened Revisions

  /** One occurrence in the log: a change without its version, which is the key. */
  datatype Record = Record(drv: Option<string>, date: Option<string>, rev: string, depth: int)

  function RecordOf(c: Change): Record {
    Record(c.drv, c.date, c.rev, c.depth)
  }

  /** The `@changes` hash: version to the occurrences found under it. */
  type Changes = map<Option<string>, seq<Record>>

  /** The hash's default: a missing key reads as an empty list. */
  function Entries(m: Changes, k: Option<string>): seq<Record> {
    if k in m then m[k] else []
  }

  /** The versions of the changes in `cs`. */
  function Versions(cs: seq<Change>): set<Option<string>> {
    set c | c in cs :: c.version
  }

  /** The records of the changes in `cs` whose version is `k`, in order. */
  function Occurrences(cs: seq<Change>, k: Option<string>): seq<Record>
    decreases |cs|
  {
    if cs == [] then []
    else (if cs[0].version == k then [RecordOf(cs[0])] else []) + Occurrences(cs[1..], k)
  }

  /** The hash that adding the changes `cs` to an empty one builds: every
      version seen, mapped to its occurrences in the order they were added. */
  function Group(cs: seq<Change>): Changes {
    map k | k in Versions(cs) :: Occurrences(cs, k)
  }

  lemma {:induction false} OccurrencesSnoc(cs: seq<Change>, c: Change, k: Option<string>)
    ensures Occurrences(cs + [c], k) ==
            Occurrences(cs, k) + (if c.version == k then [RecordOf(c)] else [])
    decreases |cs|
  {
    if cs == [] {
      assert Occurrences([c], k) == (if c.version == k then [RecordOf(c)] else []) + Occurrences([], k);
    } else {
      var head := if cs[0].version == k then [RecordOf(cs[0])] else [];
      var last := if c.version == k then [RecordOf(c)] else [];
      assert (cs + [c])[0] == cs[0];
      assert (cs + [c])[1..] == cs[1..] + [c];
      OccurrencesSnoc(cs[1..], c, k);
      calc {
        Occurrences(cs + [c], k);
        head + Occurrences(cs[1..] + [c], k);
        head + (Occurrences(cs[1..], k) + last);
        (head + Occurrences(cs[1..], k)) + last;
        Occurrences(cs, k) + last;
      }
    }
  }

  /** A version has occurrences exactly when some change carries it. */
  lemma {:induction false} OccurrencesPresent(cs: seq<Change>, k: Option<string>)
    ensures Occurrences(cs, k) != [] <==> k in Versions(cs)
    decreases |cs|
  {
    if cs != [] {
      OccurrencesPresent(cs[1..], k);
      assert cs == [cs[0]] + cs[1..];
      assert Versions(cs) == {cs[0].version} + Versions(cs[1..]);
    }
  }

  /** The grouped log holds, under each version, exactly the changes of that
      version in the order they were added, and holds a key only once a
      change with that version has been added. */
  lemma GroupIsOccurrences(cs: seq<Change>, k: Option<string>)
    ensures Entries(Group(cs), k) == Occurrences(cs, k)
    ensures k in Group(cs) <==> Occurrences(cs, k) != []
  {
    OccurrencesPresent(cs, k);
  }

  /** One `add_change` on the hash built from `cs` builds the hash of `cs`
      followed by the new change: its record is appended under its version
      and every other version is left alone. */
  lemma GroupSnoc(cs: seq<Change>, c: Change)
    ensures Group(cs + [c]) == Group(cs)[c.version := Entries(Group(cs), c.version) + [RecordOf(c)]]
  {
    var m := Group(cs)[c.version := Entries(Group(cs), c.version) + [RecordOf(c)]];
    assert Versions(cs + [c]) == Versions(cs) + {c.version};
    forall k | k in m
      ensures k in Group(cs + [c]) && Group(cs + [c])[k] == m[k]
    {
      GroupIsOccurrences(cs, k);
      OccurrencesSnoc(cs, c, k);
    }
  }

  predicate RecordsIncreasing(rs: seq<Record>) {
    forall i, j :: 0 <= i < j < |rs| ==> rs[i].depth < rs[j].depth
  }

  lemma {:induction false} OccurrencesDeeper(cs: seq<Change>, k: Option<string>, d: int)
    requires forall i :: 0 <= i < |cs| ==> d < cs[i].depth
    ensures forall i :: 0 <= i < |Occurrences(cs, k)| ==> d < Occurrences(cs, k)[i].depth
    decreases |cs|
  {
    if cs != [] {
      OccurrencesDeeper(cs[1..], k, d);
    }
  }

  /** Changes added in increasing depth stay in increasing depth under every key. */
  lemma {:induction false} OccurrencesIncreasing(cs: seq<Change>, k: Option<string>)
    requires DepthsIncreasing(cs)
    ensures RecordsIncreasing(Occurrences(cs, k))
    decreases |cs|
  {
    if cs != [] {
      OccurrencesIncreasing(cs[1..], k);
      OccurrencesDeeper(cs[1..], k, cs[0].depth);
    }
  }

  /** A log built from changes found in increasing depth lists every
      version's occurrences in increasing depth. */
  lemma GroupIncreasing(cs: seq<Change>)
    requires DepthsIncreasing(cs)
    ensures forall k :: RecordsIncreasing(Entries(Group(cs), k))
  {
    forall k ensures RecordsIncreasing(Entries(Group(cs), k)) {
      GroupIsOccurrences(cs, k);
      OccurrencesIncreasing(cs, k);
    }
  }

  /** How many of `n` added changes the writes `add_change` makes on its own
      have covered: `n` rounded down to a multiple of the batch size 5. */
  function BatchedPrefix(n: nat): (r: nat)
    ensures r % 5 == 0 && r <= n < r + 5
  {
    if n < 5 then 0 else 5 + BatchedPrefix(n - 5)
  }

  /** One more change either completes a batch, which is then written, or
      leaves the written prefix where it was. */
  lemma {:induction false} BatchedPrefixStep(n: nat)
    ensures BatchedPrefix(n + 1) == if (n + 1) % 5 == 0 then n + 1 else BatchedPrefix(n)
  {
    if n >= 5 {
      BatchedPrefixStep(n - 5);
    }
  }

  /** A prefix of `a` is unchanged by appending to `a`. */
  lemma PrefixOfAppend<T>(a: seq<T>, b: seq<T>, n: nat)
    requires n <= |a|
    ensures (a + b)[..n] == a[..n]
  {
  }

  class Log {
    /** `@changes` */
    var changes: Changes
    /** `@num_changes` */
    var numChanges: nat
    /** Every change added so far, in order. */
    ghost var added: seq<Change>
    /** What the last `write_log` put on disk, and how many changes it held. */
    ghost var persisted: Changes
    ghost var persistedCount: nat

    /** The hash groups the added changes, the counter counts them, and the
        last write holds the first changes added. */
    ghost predicate Consistent()
      reads this
    {
      changes == Group(added) && numChanges == |added| &&
      persistedCount <= |added| && persisted == Group(added[..persistedCount])
    }

    /** Besides, the last write misses at most the current batch of five. */
    ghost predicate Valid()
      reads this
    {
      Consistent() && BatchedPrefix(|added|) <= persistedCount
    }

    /** `initialize`: an empty hash and a zero counter; nothing written yet. */
    constructor ()
      ensures Valid()
      ensures changes == map[] && numChanges == 0 && added == []
      ensures persisted == map[] && persistedCount == 0
    {
      changes := map[];
      numChanges := 0;
      added := [];
      persisted := map[];
      persistedCount := 0;
    }

    /** `write_log`: the whole hash is persisted. */
    method WriteLog()
      requires Consistent()
      modifies this
      ensures Valid()
      ensures persisted == changes && persistedCount == numChanges
      ensures changes == old(changes) && numChanges == old(numChanges) && added == old(added)
    {
      persisted := changes;
      persistedCount := numChanges;
      assert added[..persistedCount] == added;
    }

    /** `add_change`: append the change without its version under its version,
        count it, and write the log when the count reaches a multiple of 5. */
    method AddChange(c: Change)
      requires Valid()
      modifies this
      ensures Valid()
      ensures added == old(added) + [c]
      ensures changes == old(changes)[c.version := Entries(old(changes), c.version) + [RecordOf(c)]]
      ensures forall k :: k != c.version ==> Entries(changes, k) == Entries(old(changes), k)
      ensures numChanges == old(numChanges) + 1
      ensures numChanges % 5 == 0 ==> persisted == changes && persistedCount == numChanges
      ensures numChanges % 5 != 0 ==>
                persisted == old(persisted) && persistedCount == old(persistedCount)
      ensures numChanges - persistedCount <= 4
    {
      changes := changes[c.version := Entries(changes, c.version) + [RecordOf(c)]];
      numChanges := numChanges + 1;
      added := added + [c];
      PrefixOfAppend(old(added), [c], persistedCount);
      GroupSnoc(old(added), c);
      BatchedPrefixStep(|old(added)|);
      if numChanges % 5 == 0 {
        WriteLog();
      }
    }
  }
}
