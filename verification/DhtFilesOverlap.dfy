/**
 Any number of file saves at once, with no lock around them. A step is one write of the shared
 store: the next node of some file, or a write of the routing table.
 */
module DhtFilesOverlap {
  import opened Bytes
  import opened Schema
  import opened Storage
  import opened MerkleDag
  import opened MerkleProofs

  /** A save of which the first `written` nodes are in the store. */
  datatype Saving = Saving(file: Bytes, written: nat)

  /** `kept` is history: the files whose key was handed out. */
  datatype State = State(store: Store, open: map<nat, Saving>, kept: set<Bytes>)

  datatype Action =
    | Begin(call: nat, file: Bytes)
    | Write(call: nat)
    | HandOut(call: nat)
    | GiveUp(call: nat)                     // a write failed
    | Foreign(key: Bytes, value: Bytes)     // a write under another prefix

  ghost predicate Enabled(hash: Hash, s: State, a: Action) {
    match a
    case Begin(call, _) => call !in s.open
    case Write(call) => call in s.open && s.open[call].written < |Blobs(hash, s.open[call].file)|
    case HandOut(call) => call in s.open && s.open[call].written == |Blobs(hash, s.open[call].file)|
    case GiveUp(call) => call in s.open
    case Foreign(key, _) => !IsDagKey(key)
  }

  function Put(hash: Hash, s: Store, b: Bytes): Store { s[DagKey(hash(b)) := b] }

  ghost function Apply(hash: Hash, s: State, a: Action): State
    requires Enabled(hash, s, a)
  {
    match a
    case Begin(call, file) => s.(open := s.open[call := Saving(file, 0)])
    case Write(call) =>
      var saving := s.open[call];
      s.(store := Put(hash, s.store, Blobs(hash, saving.file)[saving.written]),
         open := s.open[call := Saving(saving.file, saving.written + 1)])
    case HandOut(call) => s.(open := s.open - {call}, kept := s.kept + {s.open[call].file})
    case GiveUp(call) => s.(open := s.open - {call})
    case Foreign(key, value) => s.(store := s.store[key := value])
  }

  ghost predicate Run(hash: Hash, states: seq<State>, actions: seq<Action>) {
    && |states| == |actions| + 1
    && forall i :: 0 <= i < |actions| ==>
         Enabled(hash, states[i], actions[i]) && states[i + 1] == Apply(hash, states[i], actions[i])
  }

  /** No save is going on and no key was handed out; the store may hold anything. */
  predicate IsStart(s: State) { s.open == map[] && s.kept == {} }

  /** The nodes of every file a run began to save. */
  ghost function BegunBlobs(hash: Hash, actions: seq<Action>): set<Bytes> {
    if |actions| == 0 then {}
    else
      BegunBlobs(hash, actions[..|actions| - 1]) +
      match actions[|actions| - 1]
      case Begin(_, file) => SetOf(Blobs(hash, file))
      case _ => {}
  }

  lemma OneMoreWrite(hash: Hash, s: Store, file: Bytes, n: nat)
    requires n < |Blobs(hash, file)|
    ensures WriteAll(hash, s, Blobs(hash, file)[..n + 1])
         == Put(hash, WriteAll(hash, s, Blobs(hash, file)[..n]), Blobs(hash, file)[n])
  {
    hide Blobs;
    var blobs := Blobs(hash, file);
    assert blobs[..n + 1][..n] == blobs[..n] && blobs[..n + 1][n] == blobs[n];
  }

  lemma ExtendRun(hash: Hash, states: seq<State>, actions: seq<Action>, a: Action)
    requires Run(hash, states, actions) && Enabled(hash, states[|actions|], a)
    ensures Run(hash, states + [Apply(hash, states[|actions|], a)], actions + [a])
  {
    hide Enabled, Apply;
  }

  /** One save by itself, up to its first `n` writes. */
  lemma {:induction false} FirstWrites(hash: Hash, s: State, call: nat, file: Bytes, n: nat)
    returns (states: seq<State>, actions: seq<Action>)
    requires call !in s.open && n <= |Blobs(hash, file)|
    ensures Run(hash, states, actions) && states[0] == s
    ensures states[|actions|] ==
            State(WriteAll(hash, s.store, Blobs(hash, file)[..n]), s.open[call := Saving(file, n)], s.kept)
    decreases n
  {
    hide Blobs, Put;
    if n == 0 {
      return [s, Apply(hash, s, Begin(call, file))], [Begin(call, file)];
    }
    states, actions := FirstWrites(hash, s, call, file, n - 1);
    OneMoreWrite(hash, s.store, file, n - 1);
    ExtendRun(hash, states, actions, Write(call));
    var next := Apply(hash, states[|actions|], Write(call));
    assert s.open[call := Saving(file, n - 1)][call := Saving(file, n)] == s.open[call := Saving(file, n)];
    states, actions := states + [next], actions + [Write(call)];
  }

  /** A save with nothing in between writes what the specification writes, and hands out its key. */
  lemma UninterruptedSave(hash: Hash, s: State, call: nat, file: Bytes)
    returns (states: seq<State>, actions: seq<Action>)
    requires call !in s.open
    ensures Run(hash, states, actions) && states[0] == s
    ensures states[|actions|] == State(WriteAll(hash, s.store, Blobs(hash, file)), s.open, s.kept + {file})
  {
    hide Blobs, WriteAll;
    var blobs := Blobs(hash, file);
    states, actions := FirstWrites(hash, s, call, file, |blobs|);
    assert blobs[..|blobs|] == blobs;
    ExtendRun(hash, states, actions, HandOut(call));
    var last := Apply(hash, states[|actions|], HandOut(call));
    assert s.open[call := Saving(file, |blobs|)] - {call} == s.open;
    states, actions := states + [last], actions + [HandOut(call)];
  }

  // ----- Every write stays

  lemma PutKeepsStored(hash: Hash, s: Store, b: Bytes, blobs: seq<Bytes>, all: set<Bytes>)
    requires !HasCollision(hash, all) && b in all && SetOf(blobs) <= all
    requires Stored(hash, s, blobs)
    ensures Stored(hash, Put(hash, s, b), blobs)
  {
    forall i | 0 <= i < |blobs| ensures Lookup(Put(hash, s, b), DagKey(hash(blobs[i]))) == Found(blobs[i]) {
      assert blobs[i] in SetOf(blobs);
      assert !Collide(hash, b, blobs[i]);
      if DagKey(hash(b)) == DagKey(hash(blobs[i])) {
        DagKeyInjective(hash(b), hash(blobs[i]));
      }
    }
  }

  lemma ForeignKeepsStored(hash: Hash, s: Store, key: Bytes, value: Bytes, blobs: seq<Bytes>)
    requires !IsDagKey(key) && Stored(hash, s, blobs)
    ensures Stored(hash, s[key := value], blobs)
  {
    forall i | 0 <= i < |blobs| ensures Lookup(s[key := value], DagKey(hash(blobs[i]))) == Found(blobs[i]) {
      DagKeyIsDagKey(hash(blobs[i]));
    }
  }

  ghost predicate GoodSaving(hash: Hash, s: Store, saving: Saving, all: set<Bytes>) {
    && saving.written <= |Blobs(hash, saving.file)| && SetOf(Blobs(hash, saving.file)) <= all
    && Stored(hash, s, Blobs(hash, saving.file)[..saving.written])
  }

  ghost predicate Inv(hash: Hash, s: State, all: set<Bytes>) {
    && (forall call :: call in s.open ==> GoodSaving(hash, s.store, s.open[call], all))
    && (forall file :: file in s.kept ==> SetOf(Blobs(hash, file)) <= all && Stored(hash, s.store, Blobs(hash, file)))
  }

  lemma FrontIsSubset(blobs: seq<Bytes>, n: nat)
    requires n <= |blobs|
    ensures SetOf(blobs[..n]) <= SetOf(blobs)
  {
  }

  lemma PutKeepsSaving(hash: Hash, s: Store, b: Bytes, saving: Saving, all: set<Bytes>)
    requires !HasCollision(hash, all) && b in all && GoodSaving(hash, s, saving, all)
    ensures GoodSaving(hash, Put(hash, s, b), saving, all)
  {
    hide Blobs, Put, Stored, SetOf;
    FrontIsSubset(Blobs(hash, saving.file), saving.written);
    PutKeepsStored(hash, s, b, Blobs(hash, saving.file)[..saving.written], all);
  }

  lemma PutAdvances(hash: Hash, s: Store, saving: Saving, all: set<Bytes>)
    requires !HasCollision(hash, all) && GoodSaving(hash, s, saving, all)
    requires saving.written < |Blobs(hash, saving.file)|
    ensures var b := Blobs(hash, saving.file)[saving.written];
            b in all && GoodSaving(hash, Put(hash, s, b), Saving(saving.file, saving.written + 1), all)
  {
    hide Blobs;
    var blobs, n := Blobs(hash, saving.file), saving.written;
    assert blobs[n] in SetOf(blobs);
    PutKeepsSaving(hash, s, blobs[n], saving, all);
    var s' := Put(hash, s, blobs[n]);
    forall i | 0 <= i < n + 1 ensures Lookup(s', DagKey(hash(blobs[i]))) == Found(blobs[i]) {
      assert i < n ==> blobs[i] == blobs[..n][i];
    }
  }

  lemma WriteKeepsInv(hash: Hash, s: State, call: nat, all: set<Bytes>)
    requires !HasCollision(hash, all) && Inv(hash, s, all) && Enabled(hash, s, Write(call))
    ensures Inv(hash, Apply(hash, s, Write(call)), all)
  {
    hide GoodSaving, Blobs, Stored, SetOf, Put;
    var saving := s.open[call];
    var b := Blobs(hash, saving.file)[saving.written];
    var s' := Apply(hash, s, Write(call));
    PutAdvances(hash, s.store, saving, all);
    forall other | other in s'.open ensures GoodSaving(hash, s'.store, s'.open[other], all) {
      if other != call {
        PutKeepsSaving(hash, s.store, b, s.open[other], all);
      }
    }
    forall file | file in s'.kept ensures Stored(hash, s'.store, Blobs(hash, file)) {
      PutKeepsStored(hash, s.store, b, Blobs(hash, file), all);
    }
  }

  lemma OtherStepKeepsInv(hash: Hash, s: State, a: Action, all: set<Bytes>)
    requires Inv(hash, s, all) && Enabled(hash, s, a) && !a.Write?
    requires BegunBlobs(hash, [a]) <= all
    ensures Inv(hash, Apply(hash, s, a), all)
  {
    hide Blobs, SetOf;
    var s' := Apply(hash, s, a);
    assert [a][..0] == [];
    forall call | call in s'.open ensures GoodSaving(hash, s'.store, s'.open[call], all) {
      if a.Foreign? {
        var saving := s.open[call];
        assert GoodSaving(hash, s.store, saving, all);
        ForeignKeepsStored(hash, s.store, a.key, a.value, Blobs(hash, saving.file)[..saving.written]);
      } else if call in s.open && s'.open[call] == s.open[call] {
        assert GoodSaving(hash, s.store, s.open[call], all);
      }
    }
    forall file | file in s'.kept
      ensures SetOf(Blobs(hash, file)) <= all && Stored(hash, s'.store, Blobs(hash, file))
    {
      if a.Foreign? {
        ForeignKeepsStored(hash, s.store, a.key, a.value, Blobs(hash, file));
      } else if file !in s.kept {
        assert GoodSaving(hash, s.store, s.open[a.call], all);
        assert Blobs(hash, file)[..|Blobs(hash, file)|] == Blobs(hash, file);
      }
    }
  }

  lemma {:induction false} RunKeepsInv(hash: Hash, states: seq<State>, actions: seq<Action>, all: set<Bytes>)
    requires Run(hash, states, actions) && IsStart(states[0])
    requires BegunBlobs(hash, actions) <= all && !HasCollision(hash, all)
    ensures Inv(hash, states[|actions|], all)
    decreases |actions|
  {
    hide Apply, Enabled, Blobs, HasCollision;
    if |actions| == 0 {
      hide GoodSaving, Stored;
    } else {
      hide Inv;
      var n := |actions| - 1;
      RunKeepsInv(hash, states[..n + 1], actions[..n], all);
      assert [actions[n]][..0] == [];
      if actions[n].Write? {
        WriteKeepsInv(hash, states[n], actions[n].call, all);
      } else {
        OtherStepKeepsInv(hash, states[n], actions[n], all);
      }
    }
  }

  /**
     However saves interleave with one another and with writes of the routing table, failed ones
     included, a key handed out gives its file back, or two nodes of the files begun collide.
   */
  lemma KeysStayGood(hash: Hash, states: seq<State>, actions: seq<Action>, file: Bytes)
    requires Run(hash, states, actions) && IsStart(states[0])
    requires file in states[|actions|].kept
    ensures FindFile(states[|actions|].store, FileKey(hash, file)) == File(file)
         || HasCollision(hash, BegunBlobs(hash, actions))
  {
    hide Apply, Enabled, Blobs, HasCollision, FindFile, FileKey;
    if !HasCollision(hash, BegunBlobs(hash, actions)) {
      RunKeepsInv(hash, states, actions, BegunBlobs(hash, actions));
      StoredFileIsFound(hash, states[|actions|].store, file);
    }
  }

  // ----- The store invariant

  lemma PutExtends(hash: Hash, s: Store, b: Bytes, all: set<Bytes>)
    requires DagInv(hash, s) && DagValues(s) <= all && b in all && !HasCollision(hash, all)
    ensures DagExtends(s, Put(hash, s, b))
  {
    forall k | k in s && IsDagKey(k) ensures Put(hash, s, b)[k] == s[k] {
      assert s[k] in DagValues(s) && !Collide(hash, s[k], b);
      if k == DagKey(hash(b)) {
        DagKeyInjective(hash(s[k]), hash(b));
      }
    }
  }

  /** A META_LINK is written after its chunks, so it is complete whoever else writes meanwhile. */
  lemma PutKeepsDagInv(hash: Hash, s: Store, saving: Saving, all: set<Bytes>)
    requires DagInv(hash, s) && DagValues(s) <= all && !HasCollision(hash, all)
    requires GoodSaving(hash, s, saving, all) && saving.written < |Blobs(hash, saving.file)|
    ensures var s' := Put(hash, s, Blobs(hash, saving.file)[saving.written]);
            DagInv(hash, s') && DagValues(s') <= all
  {
    hide Blobs, GoodSaving;
    var n := saving.written;
    var b := Blobs(hash, saving.file)[n];
    var s' := Put(hash, s, b);
    PutAdvances(hash, s, saving, all);
    StoredNow(hash, s', Saving(saving.file, n + 1), all);
    PutExtends(hash, s, b, all);
    assert b in Blobs(hash, saving.file)[..n + 1] by { assert Blobs(hash, saving.file)[..n + 1][n] == b; }
    BlobIsExplained(hash, s', saving.file, n + 1, b);
    forall k | k in s' && IsDagKey(k)
      ensures k == DagKey(hash(s'[k])) && (IsChunkBlob(s'[k]) || IsCompleteMeta(hash, s', s'[k])) && s'[k] in all
    {
      if k != DagKey(hash(b)) {
        assert s[k] in DagValues(s);
        ExplainedExtends(hash, s, s', s[k]);
      }
    }
  }

  lemma StoredNow(hash: Hash, s: Store, saving: Saving, all: set<Bytes>)
    requires GoodSaving(hash, s, saving, all)
    ensures saving.written <= |Blobs(hash, saving.file)| && Stored(hash, s, Blobs(hash, saving.file)[..saving.written])
  {
  }

  /** So every interleaving keeps the file store well formed, or two of the nodes involved collide. */
  lemma {:induction false} InterleavingKeepsDagInv(hash: Hash, states: seq<State>, actions: seq<Action>,
                                                   all: set<Bytes>)
    requires Run(hash, states, actions) && IsStart(states[0]) && DagInv(hash, states[0].store)
    requires DagValues(states[0].store) + BegunBlobs(hash, actions) <= all && !HasCollision(hash, all)
    ensures DagInv(hash, states[|actions|].store) && DagValues(states[|actions|].store) <= all
    decreases |actions|
  {
    hide Blobs, HasCollision, DagInv, DagValues, Inv, GoodSaving, Put;
    if |actions| > 0 {
      var n := |actions| - 1;
      var a, s := actions[n], states[n];
      InterleavingKeepsDagInv(hash, states[..n + 1], actions[..n], all);
      if a.Write? {
        RunKeepsInv(hash, states[..n + 1], actions[..n], all);
        OpenIsGood(hash, s, a.call, all);
        PutKeepsDagInv(hash, s.store, s.open[a.call], all);
      } else if a.Foreign? {
        ForeignWriteKeepsDagInv(hash, s.store, a.key, a.value);
      }
    }
  }

  lemma OpenIsGood(hash: Hash, s: State, call: nat, all: set<Bytes>)
    requires Inv(hash, s, all) && call in s.open
    ensures GoodSaving(hash, s.store, s.open[call], all)
  {
  }
}
