/** Runs that reach the states in which a freeze or a flush is unsafe. */
module FlushLimits {
  import opened Bytes
  import opened Records
  import opened Frames
  import opened WalLog
  import opened WalContents
  import opened Memtables
  import opened Lake
  import opened Flushes
  import opened Protocol
  import opened ProtocolInvariant
  import opened ProtocolSteps
  import opened ProtocolRecovery
  import opened Guarantees
  import opened Limits

  // ---- The late writer is reachable -------------------------------------------------------------------

  /** Two writers take LSNs 1 and 2 and the second finishes first: freezing now breaks the guard. */
  lemma LateWriterHappens(c: Config) returns (s: State)
    requires c.segmentMaxBytes > 0 && c.maxFrozen > 0
    ensures Reachable(c, s) && Enabled(c, s, Freeze) && s.flush.Idle? && s.tables.frozen == []
    ensures (forall r :: r in s.pending ==> FreshName(s.wal, [r], c.segmentMaxBytes)) && !FreezeGuard(s)
  {
    hide RunFrom, Frame, Encoded;
    var a, b := PutRecord([0], 1, []), PutRecord([0], 2, []);
    Nowhere(c, Init, true);
    Extend(c, Init, [], Init, Begin([0], Put, []), true);
    var s1 := Took(Init, a);
    Extend(c, Init, [] + [Begin([0], Put, [])], s1, Begin([0], Put, []), true);
    var s2 := Took(s1, b);
    Extend(c, Init, [] + [Begin([0], Put, [])] + [Begin([0], Put, [])], s2, Log(b), true);
    var s3 := Logged(c, s2, b);
    Extend(c, Init, [] + [Begin([0], Put, [])] + [Begin([0], Put, [])] + [Log(b)], s3, Insert(b), true);
    s := Acknowledged(s3, b);
    assert a in InFlight(s) && s.tables.active.maxLsn == 2;
    assert s.tables.active.entries == map[[0] := EntryOf(b)];
    assert s.pending == {a};
  }

  // ---- Which layers hold a key ---------------------------------------------------------------------------

  /** Some of the layers holds the key. */
  ghost predicate HeldAbove(layers: seq<Layer>, key: Key) {
    exists i :: 0 <= i < |layers| && key in layers[i]
  }

  lemma HeldIsTop(layers: seq<Layer>, key: Key)
    ensures HeldAbove(layers, key) <==> Top(layers, key).Some?
  {
    hide Top;
    TopAt(layers, key);
    if Top(layers, key).Some? {
      var j :| TopIs(layers, key, j, Top(layers, key).value);
      assert key in layers[j];
    }
  }
}
