/**
 The compaction loop (db/db_impl.cc:878-999, db/version_set.cc:1533-1576): which entries of the merged inputs
 reach the output files.
 */
module Compactions {
  import opened Keys
  import opened Lookup
  import opened Versions

  /** No file deeper than the output level can hold `k`: a full scan of every deeper level. */
  ghost predicate BaseLevelForKey(v: Version, level: nat, k: UserKey)
  {
    forall i, f :: level + 2 <= i < |v.files| && f in v.files[i] ==> !Covers(f, k)
  }

  /** The entry is a tombstone no snapshot needs and no deeper level backs. */
  ghost predicate ObsoleteTombstone(v: Version, level: nat, snapshot: SequenceNumber, e: Entry) {
    e.key.kind.Deletion? && e.key.sequence <= snapshot && BaseLevelForKey(v, level, e.key.user)
  }

  /** The loop's decision for the i-th merged entry. */
  ghost predicate DropAt(v: Version, level: nat, snapshot: SequenceNumber, merged: seq<Entry>, i: nat)
    requires i < |merged|
  {
    || (i > 0 && merged[i - 1].key.user == merged[i].key.user && merged[i - 1].key.sequence <= snapshot)
    || ObsoleteTombstone(v, level, snapshot, merged[i])
  }

  /** The first `n` merged entries without the dropped ones. */
  ghost function Kept(v: Version, level: nat, snapshot: SequenceNumber, merged: seq<Entry>, n: nat): seq<Entry>
    requires n <= |merged|
  {
    if n == 0 then []
    else
      Kept(v, level, snapshot, merged, n - 1)
      + (if DropAt(v, level, snapshot, merged, n - 1) then [] else [merged[n - 1]])
  }

  function Flatten(parts: seq<seq<Entry>>): seq<Entry> {
    if parts == [] then [] else Flatten(parts[..|parts| - 1]) + parts[|parts| - 1]
  }

  lemma FlattenSnoc(parts: seq<seq<Entry>>, p: seq<Entry>)
    ensures Flatten(parts + [p]) == Flatten(parts) + p
  {
    assert (parts + [p])[..|parts|] == parts;
  }

  ghost predicate NonEmptyParts(parts: seq<seq<Entry>>) {
    forall i :: 0 <= i < |parts| ==> parts[i] != []
  }

  /** A running compaction: its input version, input level, and one cursor per deeper level. */
  class Compaction {
    const version: Version
    const level: nat
    var levelPtrs: seq<nat>

    constructor (v: Version, level: nat)
      requires |v.files| == NUM_LEVELS && level + 1 < NUM_LEVELS
      ensures this.version == v && this.level == level
      ensures forall k :: CursorsAt(k)
    {
      this.version := v;
      this.level := level;
      this.levelPtrs := seq(NUM_LEVELS, _ => 0);
    }

    /** Every file a cursor has passed ends before `k`. */
    ghost predicate CursorsAt(k: UserKey)
      reads this
    {
      && level + 1 < |version.files| == NUM_LEVELS && |levelPtrs| == NUM_LEVELS
      && forall i :: level + 2 <= i < NUM_LEVELS ==>
           levelPtrs[i] <= |version.files[i]|
           && forall j :: 0 <= j < levelPtrs[i] ==> version.files[i][j].largest.user < k
    }

    ghost predicate DeeperLevelsSorted() {
      forall i :: level + 2 <= i < |version.files| ==> DisjointSorted(version.files[i])
    }

    lemma CursorsRise(k: UserKey, k': UserKey)
      requires CursorsAt(k) && k <= k'
      ensures CursorsAt(k')
    {
    }

    /** Move the cursor of level `lvl` past the files that end before `k`; report whether the next file covers `k`. */
    method Advance(lvl: nat, k: UserKey) returns (covered: bool)
      requires CursorsAt(k) && DeeperLevelsSorted() && level + 2 <= lvl < NUM_LEVELS
      modifies this`levelPtrs
      ensures CursorsAt(k)
      ensures covered <==> exists f :: f in version.files[lvl] && Covers(f, k)
    {
      var files := version.files[lvl];
      while levelPtrs[lvl] < |files|
        invariant CursorsAt(k)
        decreases |files| - levelPtrs[lvl]
      {
        var f := files[levelPtrs[lvl]];
        if k <= f.largest.user {
          assert forall j :: levelPtrs[lvl] < j < |files| ==> Before(files[levelPtrs[lvl]], files[j]);
          assert f in files && (f.smallest.user <= k ==> Covers(f, k));
          return f.smallest.user <= k;
        }
        levelPtrs := levelPtrs[lvl := levelPtrs[lvl] + 1];
      }
      return false;
    }

    /** IsBaseLevelForKey: for keys asked in ascending order the moving cursors answer like a full scan. */
    method IsBaseLevelForKey(k: UserKey) returns (r: bool)
      requires CursorsAt(k) && DeeperLevelsSorted()
      modifies this`levelPtrs
      ensures CursorsAt(k)
      ensures r <==> BaseLevelForKey(version, level, k)
    {
      var lvl := level + 2;
      while lvl < NUM_LEVELS
        invariant CursorsAt(k) && lvl <= NUM_LEVELS
        invariant forall i, f :: level + 2 <= i < lvl && f in version.files[i] ==> !Covers(f, k)
      {
        var covered := Advance(lvl, k);
        if covered {
          return false;
        }
        lvl := lvl + 1;
      }
      return true;
    }
  }

  /**
   The loop's handling of one key: track the current user key and its last sequence, decide whether to drop.
   `tracked` is the loop's memory: the user key and sequence of the previous entry, if any.
   */
  method ConsiderEntry(c: Compaction, merged: seq<Entry>, i: nat, snapshot: SequenceNumber,
                       tracked: Option<(UserKey, SequenceNumber)>)
    returns (drop: bool, tracked': Option<(UserKey, SequenceNumber)>)
    requires Sorted(merged) && i < |merged| && snapshot < MAX_SEQUENCE
    requires tracked == if i == 0 then None else Some((merged[i - 1].key.user, merged[i - 1].key.sequence))
    requires c.DeeperLevelsSorted() && c.CursorsAt(merged[if i == 0 then 0 else i - 1].key.user)
    modifies c`levelPtrs
    ensures drop == DropAt(c.version, c.level, snapshot, merged, i)
    ensures tracked' == Some((merged[i].key.user, merged[i].key.sequence))
    ensures c.CursorsAt(merged[i].key.user)
  {
    var e := merged[i];
    var currentUserKey: Option<UserKey> := None;
    var lastSequenceForKey: SequenceNumber := MAX_SEQUENCE;
    if tracked.Some? {
      currentUserKey, lastSequenceForKey := Some(tracked.value.0), tracked.value.1;
    }
    if currentUserKey != Some(e.key.user) {
      currentUserKey := Some(e.key.user);
      lastSequenceForKey := MAX_SEQUENCE;
    }
    drop := false;
    assert i > 0 ==> Less(merged[i - 1].key, merged[i].key);
    c.CursorsRise(merged[if i == 0 then 0 else i - 1].key.user, e.key.user);
    if lastSequenceForKey <= snapshot {
      drop := true;
    } else if e.key.kind.Deletion? && e.key.sequence <= snapshot {
      drop := c.IsBaseLevelForKey(e.key.user);
    }
    tracked' := Some((e.key.user, e.key.sequence));
  }

  /** The outputs once the open one, if any, is closed. */
  function Close(closed: seq<seq<Entry>>, open: seq<Entry>): seq<seq<Entry>> {
    if open == [] then closed else closed + [open]
  }

  /**
   The survivors among the first `n` entries, cut into outputs: those closed, and the one still open.  An output is
   closed before an entry with its `stopBefore` flag and after one with its `full` flag.
   */
  ghost function Cut(v: Version, level: nat, snapshot: SequenceNumber, merged: seq<Entry>, stopBefore: seq<bool>,
                     full: seq<bool>,
                     n: nat): (seq<seq<Entry>>, seq<Entry>)
    requires n <= |merged| == |stopBefore| == |full|
  {
    if n == 0 then ([], [])
    else
      var i := n - 1;
      var (closed, open) := Cut(v, level, snapshot, merged, stopBefore, full, i);
      var (done, rest) := if stopBefore[i] then (Close(closed, open), []) else (closed, open);
      if DropAt(v, level, snapshot, merged, i) then (done, rest)
      else if full[i] then (Close(done, rest + [merged[i]]), [])
      else (done, rest + [merged[i]])
  }

  lemma CloseFlattens(closed: seq<seq<Entry>>, open: seq<Entry>)
    requires NonEmptyParts(closed)
    ensures NonEmptyParts(Close(closed, open)) && Flatten(Close(closed, open)) == Flatten(closed) + open
  {
    FlattenSnoc(closed, open);
  }

  /** Cutting loses nothing and adds nothing. */
  lemma {:induction false} CutIsKept(v: Version, level: nat, snapshot: SequenceNumber, merged: seq<Entry>,
                                     stopBefore: seq<bool>,
                                     full: seq<bool>, n: nat)
    requires n <= |merged| == |stopBefore| == |full|
    ensures var (closed, open) := Cut(v, level, snapshot, merged, stopBefore, full, n);
            NonEmptyParts(closed) && Flatten(closed) + open == Kept(v, level, snapshot, merged, n)
  {
    hide DropAt, Flatten, Close;
    if n > 0 {
      var i := n - 1;
      CutIsKept(v, level, snapshot, merged, stopBefore, full, i);
      var (closed, open) := Cut(v, level, snapshot, merged, stopBefore, full, i);
      CloseFlattens(closed, open);
      var (done, rest) := if stopBefore[i] then (Close(closed, open), []) else (closed, open);
      CloseFlattens(done, rest + [merged[i]]);
      assert Flatten(done) + rest == Kept(v, level, snapshot, merged, i);
      assert Flatten(done) + (rest + [merged[i]]) == Flatten(done) + rest + [merged[i]];
    } else {
      NothingKept();
    }
  }

  lemma NothingKept()
    ensures Flatten([]) + [] == []
  {
  }

  /**
   DoCompactionWork: filter the merged inputs and cut the survivors into output files.  `stopBefore` and `full`
   stand for the size-driven decisions to close the current output; any choice is allowed.
   */
  method DoCompactionWork(c: Compaction, merged: seq<Entry>, snapshot: SequenceNumber,
                          stopBefore: seq<bool>, full: seq<bool>)
    returns (outputs: seq<seq<Entry>>)
    requires Sorted(merged) && |stopBefore| == |full| == |merged|
    requires c.DeeperLevelsSorted() && forall k :: c.CursorsAt(k)
    requires snapshot < MAX_SEQUENCE
    modifies c`levelPtrs
    ensures var (closed, open) := Cut(c.version, c.level, snapshot, merged, stopBefore, full, |merged|);
            outputs == Close(closed, open)
    ensures Flatten(outputs) == Kept(c.version, c.level, snapshot, merged, |merged|)
    ensures NonEmptyParts(outputs)
  {
    hide DropAt, Kept, Flatten;
    outputs := [];
    var builder: Option<seq<Entry>> := None;
    var tracked: Option<(UserKey, SequenceNumber)> := None;
    var i := 0;
    while i < |merged|
      invariant 0 <= i <= |merged|
      invariant tracked == if i == 0 then None else Some((merged[i - 1].key.user, merged[i - 1].key.sequence))
      invariant i < |merged| ==> c.CursorsAt(merged[if i == 0 then 0 else i - 1].key.user)
      invariant builder.Some? ==> builder.value != []
      invariant Cut(c.version, c.level, snapshot, merged, stopBefore, full, i)
                == (outputs, if builder.Some? then builder.value else [])
    {
      if stopBefore[i] {
        outputs := FinishOutput(outputs, builder);
        builder := None;
      }
      var drop;
      drop, tracked := ConsiderEntry(c, merged, i, snapshot, tracked);
      if !drop {
        var open := if builder.Some? then builder.value else [];
        builder := Some(open + [merged[i]]);
        if full[i] {
          outputs := FinishOutput(outputs, builder);
          builder := None;
        }
      }
      i := i + 1;
    }
    CutIsKept(c.version, c.level, snapshot, merged, stopBefore, full, i);
    CloseFlattens(outputs, if builder.Some? then builder.value else []);
    outputs := FinishOutput(outputs, builder);
  }

  /** Close the current output file, if one is open. */
  method FinishOutput(outputs: seq<seq<Entry>>, builder: Option<seq<Entry>>) returns (r: seq<seq<Entry>>)
    requires builder.Some? ==> builder.value != []
    ensures r == Close(outputs, if builder.Some? then builder.value else [])
  {
    r := outputs;
    if builder.Some? {
      r := outputs + [builder.value];
    }
  }
}
